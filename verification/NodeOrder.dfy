// The order of every node list a user sees, and the editor's preview of it.
// Ids stand for their place in the code-unit order, names for their class under
// the collator.
module NodeOrder {
  import opened Options

  type NodeId = nat

  datatype Row = Row(id: NodeId, name: int, publicName: Option<int>)

  // Which key rows are sorted by: the admin's positions, and the name shown to
  // users or the internal one.
  datatype Sorting = Sorting(order: seq<NodeId>, shown: bool)

  const UNPOSITIONED: nat := 9007199254740991

  ghost predicate DistinctIds(rows: seq<Row>) {
    forall i, j :: 0 <= i < j < |rows| ==> rows[i].id != rows[j].id
  }

  function NameOf(row: Row, shown: bool): int {
    if shown && row.publicName.Some? then row.publicName.value else row.name
  }

  // The first position of an id, or UNPOSITIONED.
  function Position(order: seq<NodeId>, id: NodeId): nat {
    if id !in order then UNPOSITIONED else FirstIndex(order, id)
  }

  function FirstIndex(order: seq<NodeId>, id: NodeId): (i: nat)
    requires id in order
    ensures i < |order| && order[i] == id && id !in order[..i]
  {
    if order[0] == id then 0 else 1 + FirstIndex(order[1..], id)
  }

  predicate Before(s: Sorting, a: Row, b: Row) {
    var p, q := Position(s.order, a.id), Position(s.order, b.id);
    p < q || (p == q && (NameOf(a, s.shown) < NameOf(b, s.shown) ||
                         (NameOf(a, s.shown) == NameOf(b, s.shown) && a.id < b.id)))
  }

  ghost predicate InOrder(s: Sorting, rows: seq<Row>) {
    forall i, j :: 0 <= i < j < |rows| ==> Before(s, rows[i], rows[j])
  }

  function Insert(s: Sorting, row: Row, rows: seq<Row>): (out: seq<Row>)
    ensures multiset(out) == multiset(rows) + multiset{row}
  {
    if rows == [] || Before(s, row, rows[0]) then [row] + rows
    else
      assert [rows[0]] + rows[1..] == rows;
      [rows[0]] + Insert(s, row, rows[1..])
  }

  function Sort(s: Sorting, rows: seq<Row>): (out: seq<Row>)
    ensures multiset(out) == multiset(rows)
  {
    if rows == [] then []
    else
      assert [rows[0]] + rows[1..] == rows;
      Insert(s, rows[0], Sort(s, rows[1..]))
  }

  lemma SameMembers(xs: seq<Row>, ys: seq<Row>)
    requires multiset(xs) == multiset(ys)
    ensures |xs| == |ys| && forall r :: r in xs <==> r in ys
  {
    assert |multiset(xs)| == |xs| && |multiset(ys)| == |ys|;
    forall r ensures r in xs <==> r in ys {
      assert r in multiset(xs) <==> r in multiset(ys);
    }
  }

  lemma {:induction false} InsertInOrder(s: Sorting, row: Row, rows: seq<Row>)
    requires InOrder(s, rows) && forall r :: r in rows ==> r.id != row.id
    ensures InOrder(s, Insert(s, row, rows))
  {
    if rows != [] && !Before(s, row, rows[0]) {
      assert rows[0] in rows;
      forall r | r in rows[1..] ensures r.id != row.id { assert r in rows; }
      InsertInOrder(s, row, rows[1..]);
      var rest := Insert(s, row, rows[1..]);
      forall i | 0 <= i < |rest| ensures Before(s, rows[0], rest[i]) {
        assert rest[i] in multiset(rest);
        assert rest[i] == row || rest[i] in rows[1..];
      }
    }
  }

  lemma {:induction false} SortInOrder(s: Sorting, rows: seq<Row>)
    requires DistinctIds(rows)
    ensures InOrder(s, Sort(s, rows))
  {
    if rows != [] {
      SortInOrder(s, rows[1..]);
      SameMembers(Sort(s, rows[1..]), rows[1..]);
      InsertInOrder(s, rows[0], Sort(s, rows[1..]));
    }
  }

  lemma SameFirst(s: Sorting, xs: seq<Row>, ys: seq<Row>)
    requires InOrder(s, xs) && InOrder(s, ys) && xs != [] && ys != [] && xs[0] in ys && ys[0] in xs
    ensures xs[0] == ys[0]
  {
    var i :| 0 <= i < |ys| && ys[i] == xs[0];
    var j :| 0 <= j < |xs| && xs[j] == ys[0];
    assert i > 0 ==> Before(s, ys[0], ys[i]);
    assert j > 0 ==> Before(s, xs[0], xs[j]);
  }

  lemma TailOf(s: Sorting, xs: seq<Row>)
    requires InOrder(s, xs) && xs != []
    ensures InOrder(s, xs[1..]) && multiset(xs[1..]) == multiset(xs) - multiset{xs[0]} && xs == [xs[0]] + xs[1..]
  {
    assert xs == [xs[0]] + xs[1..];
  }

  // A sequence in order is the only arrangement of its rows that is in order.
  lemma {:induction false} InOrderIsUnique(s: Sorting, xs: seq<Row>, ys: seq<Row>)
    requires InOrder(s, xs) && InOrder(s, ys) && multiset(xs) == multiset(ys)
    ensures xs == ys
  {
    SameMembers(xs, ys);
    if xs != [] {
      SameFirst(s, xs, ys);
      TailOf(s, xs);
      TailOf(s, ys);
      InOrderIsUnique(s, xs[1..], ys[1..]);
    }
  }

  // ---- The users' order ---------------------------------------------------------------

  function OrderForUsers(rows: seq<Row>, order: seq<NodeId>): seq<Row> {
    Sort(Sorting(order, true), rows)
  }

  // The id-to-position map, built in one pass, and the sort it drives.
  method OrderNodesForUsers(rows: seq<Row>, order: seq<NodeId>) returns (sorted: seq<Row>, position: map<NodeId, nat>)
    ensures sorted == OrderForUsers(rows, order)
    ensures forall id :: id in position <==> id in order
    ensures forall id :: id in order ==> position[id] == Position(order, id)
  {
    position := map[];
    for index := 0 to |order|
      invariant forall id :: id in position <==> id in order[..index]
      invariant forall id :: id in position ==> position[id] < index && position[id] == Position(order, id)
    {
      var id := order[index];
      if id !in position {
        FirstIndexIs(order, index);
        position := position[id := index];
      }
      assert order[..index + 1] == order[..index] + [id];
    }
    assert order[..|order|] == order;
    sorted := Sort(Sorting(order, true), rows);
  }

  lemma FirstIndexIs(order: seq<NodeId>, index: nat)
    requires index < |order| && order[index] !in order[..index]
    ensures FirstIndex(order, order[index]) == index
  {
    var i := FirstIndex(order, order[index]);
    assert i >= index by {
      assert forall k :: 0 <= k < index ==> order[k] in order[..index];
    }
    assert i <= index by {
      assert forall k :: 0 <= k < i ==> order[k] in order[..i];
    }
  }

  // The place of one row before another, on positions, names and ids: a row with
  // a place comes before one without; of two with a place the one named first;
  // of two without the one with the smaller name, then the smaller id. The name
  // is the public one, where there is one, or always the internal one.
  ghost predicate ComesFirst(order: seq<NodeId>, shown: bool, a: Row, b: Row) {
    if a.id in order && b.id in order then
      exists k :: 0 <= k < |order| && order[k] == a.id && b.id !in order[..k + 1]
    else if a.id in order || b.id in order then a.id in order
    else
      var x := if shown && a.publicName.Some? then a.publicName.value else a.name;
      var y := if shown && b.publicName.Some? then b.publicName.value else b.name;
      x < y || (x == y && a.id < b.id)
  }

  lemma BeforeIff(order: seq<NodeId>, shown: bool, a: Row, b: Row)
    requires |order| <= UNPOSITIONED && a.id != b.id
    ensures Before(Sorting(order, shown), a, b) <==> ComesFirst(order, shown, a, b)
  {
    if a.id in order && b.id in order {
      var i, j := FirstIndex(order, a.id), FirstIndex(order, b.id);
      if i < j {
        assert forall k :: 0 <= k < j ==> order[k] in order[..j];
        assert order[i] == a.id && b.id !in order[..i + 1];
      }
      if k :| 0 <= k < |order| && order[k] == a.id && b.id !in order[..k + 1] {
        assert k >= i by {
          assert forall l :: 0 <= l < i ==> order[l] in order[..i];
        }
        assert j > k by {
          assert forall l :: 0 <= l <= k ==> order[l] in order[..k + 1];
        }
      }
    }
  }

  // The users' order in those terms, and that it holds the same rows. No list of
  // the runtime is as long as the place of a row without one.
  lemma UsersOrderIs(rows: seq<Row>, order: seq<NodeId>)
    requires DistinctIds(rows) && |order| <= UNPOSITIONED
    ensures multiset(OrderForUsers(rows, order)) == multiset(rows)
    ensures forall i, j :: 0 <= i < j < |OrderForUsers(rows, order)| ==>
      ComesFirst(order, true, OrderForUsers(rows, order)[i], OrderForUsers(rows, order)[j])
  {
    var sorted, s := OrderForUsers(rows, order), Sorting(order, true);
    SortInOrder(s, rows);
    SameMembers(sorted, rows);
    InOrderIsDistinct(s, sorted, rows);
    forall i, j | 0 <= i < j < |sorted| ensures ComesFirst(order, true, sorted[i], sorted[j]) {
      assert Before(s, sorted[i], sorted[j]);
      BeforeIff(order, true, sorted[i], sorted[j]);
    }
  }

  // The result does not depend on the order rows arrive in.
  lemma InputOrderIrrelevant(rows: seq<Row>, others: seq<Row>, order: seq<NodeId>)
    requires DistinctIds(rows) && DistinctIds(others) && multiset(rows) == multiset(others)
    ensures OrderForUsers(rows, order) == OrderForUsers(others, order)
  {
    SortInOrder(Sorting(order, true), rows);
    SortInOrder(Sorting(order, true), others);
    InOrderIsUnique(Sorting(order, true), OrderForUsers(rows, order), OrderForUsers(others, order));
  }

  // ---- The editor's preview ---------------------------------------------------------------

  function Ids(rows: seq<Row>): (ids: seq<NodeId>)
    ensures |ids| == |rows| && forall i :: 0 <= i < |rows| ==> ids[i] == rows[i].id
  {
    seq(|rows|, i requires 0 <= i < |rows| => rows[i].id)
  }

  function RowOf(rows: seq<Row>, id: NodeId): (row: Row)
    requires id in Ids(rows)
    ensures row in rows && row.id == id
  {
    if rows[0].id == id then rows[0] else
      assert Ids(rows) == [rows[0].id] + Ids(rows[1..]);
      RowOf(rows[1..], id)
  }

  // The rows the order names, each once, where it first names them.
  function Positioned(rows: seq<Row>, order: seq<NodeId>): seq<Row>
    decreases |order|
  {
    if order == [] then []
    else
      var init, id := order[..|order| - 1], order[|order| - 1];
      Positioned(rows, init) + if id in Ids(rows) && id !in init then [RowOf(rows, id)] else []
  }

  function Unplaced(rows: seq<Row>, order: seq<NodeId>): seq<Row> {
    if rows == [] then []
    else (if rows[0].id in order then [] else [rows[0]]) + Unplaced(rows[1..], order)
  }

  // The editor sorts the rest by the internal name.
  function Rest(rows: seq<Row>, order: seq<NodeId>): seq<Row> {
    Sort(Sorting([], false), Unplaced(rows, order))
  }

  function Preview(rows: seq<Row>, order: seq<NodeId>): seq<Row> {
    Positioned(rows, order) + Rest(rows, order)
  }

  // The preview of the first `n` positions.
  ghost predicate Placed(rows: seq<Row>, order: seq<NodeId>, n: nat, positioned: seq<NodeId>, seen: set<NodeId>)
    requires n <= |order|
  {
    && positioned == Ids(Positioned(rows, order[..n]))
    && forall id :: id in seen <==> id in order[..n] && id in Ids(rows)
  }

  lemma PlacedOneMore(rows: seq<Row>, order: seq<NodeId>, n: nat, positioned: seq<NodeId>, seen: set<NodeId>)
    requires n < |order| && Placed(rows, order, n, positioned, seen)
    ensures var id := order[n];
      if id !in Ids(rows) || id in seen then Placed(rows, order, n + 1, positioned, seen)
      else Placed(rows, order, n + 1, positioned + [id], seen + {id})
  {
    assert order[..n + 1][..n] == order[..n] && order[..n + 1] == order[..n] + [order[n]];
  }

  method MaterializeNodeOrder(rows: seq<Row>, order: seq<NodeId>) returns (ids: seq<NodeId>)
    ensures ids == Ids(Preview(rows, order))
  {
    var known := Ids(rows);
    var positioned: seq<NodeId>, seen: set<NodeId> := [], {};
    for n := 0 to |order|
      invariant Placed(rows, order, n, positioned, seen)
    {
      var id := order[n];
      PlacedOneMore(rows, order, n, positioned, seen);
      if id !in known || id in seen {
        continue;
      }
      seen := seen + {id};
      positioned := positioned + [id];
    }
    assert order[..|order|] == order;
    var rest := Unplaced(rows, order);
    ids := positioned + Ids(Sort(Sorting([], false), rest));
  }

  lemma {:induction false} PositionedMembers(rows: seq<Row>, order: seq<NodeId>)
    requires DistinctIds(rows)
    ensures forall r :: r in Positioned(rows, order) <==> r in rows && r.id in order
    decreases |order|
  {
    if order != [] {
      var init, id := order[..|order| - 1], order[|order| - 1];
      PositionedMembers(rows, init);
      assert order == init + [id];
      forall r ensures r in Positioned(rows, order) <==> r in rows && r.id in order {
        if r in rows && r.id == id {
          OnlyRowOf(rows, r);
        }
      }
    }
  }

  lemma {:induction false} OnlyRowOf(rows: seq<Row>, r: Row)
    requires DistinctIds(rows) && r in rows
    ensures r.id in Ids(rows) && RowOf(rows, r.id) == r
  {
    var i :| 0 <= i < |rows| && rows[i] == r;
    assert Ids(rows)[i] == r.id;
    var found := RowOf(rows, r.id);
    var j :| 0 <= j < |rows| && rows[j] == found;
    assert rows[i].id == rows[j].id;
  }

  lemma {:induction false} UnplacedMembers(rows: seq<Row>, order: seq<NodeId>)
    requires DistinctIds(rows)
    ensures forall r :: r in Unplaced(rows, order) <==> r in rows && r.id !in order
    ensures DistinctIds(Unplaced(rows, order))
  {
    if rows != [] {
      UnplacedMembers(rows[1..], order);
      var rest := Unplaced(rows[1..], order);
      forall i | 0 <= i < |rest| ensures rest[i].id != rows[0].id {
        assert rest[i] in rest;
        assert rest[i] in rows[1..];
      }
      assert rows == [rows[0]] + rows[1..];
    }
  }

  // Rows named earlier come before rows named later.
  lemma {:induction false} PositionedInOrder(rows: seq<Row>, order: seq<NodeId>, all: seq<NodeId>, shown: bool)
    requires DistinctIds(rows) && order <= all
    ensures InOrder(Sorting(all, shown), Positioned(rows, order))
    decreases |order|
  {
    if order != [] {
      var init, id := order[..|order| - 1], order[|order| - 1];
      PositionedInOrder(rows, init, all, shown);
      PositionedMembers(rows, init);
      if id in Ids(rows) && id !in init {
        assert all[..|init|] == init && all[|init|] == id;
        FirstIndexIs(all, |init|);
        forall r | r in Positioned(rows, init) ensures Before(Sorting(all, shown), r, RowOf(rows, id)) {
          EarlierPosition(all, |init|, r.id);
        }
      }
    }
  }

  lemma EarlierPosition(order: seq<NodeId>, n: nat, id: NodeId)
    requires n <= |order| && id in order[..n]
    ensures id in order && FirstIndex(order, id) < n
  {
    var i :| 0 <= i < n && order[i] == id;
    var first := FirstIndex(order, id);
    assert first <= i by {
      assert forall k :: 0 <= k < first ==> order[k] in order[..first];
    }
  }

  lemma SameRows(xs: seq<Row>, ys: seq<Row>)
    requires DistinctIds(xs) && DistinctIds(ys) && forall r :: r in xs <==> r in ys
    ensures multiset(xs) == multiset(ys)
  {
    OncePerRow(xs);
    OncePerRow(ys);
    forall r ensures multiset(xs)[r] == multiset(ys)[r] {
      assert r in multiset(xs) <==> r in xs;
      assert r in multiset(ys) <==> r in ys;
    }
  }

  lemma {:induction false} OncePerRow(xs: seq<Row>)
    requires DistinctIds(xs)
    ensures forall r :: multiset(xs)[r] <= 1
  {
    if xs != [] {
      assert xs == [xs[0]] + xs[1..];
      OncePerRow(xs[1..]);
      forall i | 0 <= i < |xs[1..]| ensures xs[1..][i] != xs[0] {
        assert xs[1..][i] == xs[i + 1];
      }
      assert xs[0] !in multiset(xs[1..]);
      forall r ensures multiset(xs)[r] <= 1 {
        assert multiset(xs)[r] == multiset{xs[0]}[r] + multiset(xs[1..])[r];
      }
    }
  }

  lemma RestMembers(rows: seq<Row>, order: seq<NodeId>)
    requires DistinctIds(rows)
    ensures InOrder(Sorting([], false), Rest(rows, order))
    ensures forall r :: r in Rest(rows, order) <==> r in rows && r.id !in order
  {
    UnplacedMembers(rows, order);
    SortInOrder(Sorting([], false), Unplaced(rows, order));
    SameMembers(Rest(rows, order), Unplaced(rows, order));
  }

  lemma SameIdSameRow(rows: seq<Row>, a: Row, b: Row)
    requires DistinctIds(rows) && a in rows && b in rows
    ensures a.id == b.id ==> a == b
  {
    var i :| 0 <= i < |rows| && rows[i] == a;
    var j :| 0 <= j < |rows| && rows[j] == b;
  }

  lemma InOrderIsDistinct(s: Sorting, some: seq<Row>, rows: seq<Row>)
    requires InOrder(s, some) && DistinctIds(rows) && forall r :: r in some ==> r in rows
    ensures DistinctIds(some)
  {
    forall i, j | 0 <= i < j < |some| ensures some[i].id != some[j].id {
      assert Before(s, some[i], some[j]);
      SameIdSameRow(rows, some[i], some[j]);
    }
  }

  lemma DistinctConcat(top: seq<Row>, rest: seq<Row>)
    requires DistinctIds(top) && DistinctIds(rest)
    requires forall a, b :: a in top && b in rest ==> a.id != b.id
    ensures DistinctIds(top + rest)
  {
    forall i, j | 0 <= i < j < |top + rest| ensures (top + rest)[i].id != (top + rest)[j].id {
      if i < |top| <= j {
        assert top[i] in top && rest[j - |top|] in rest;
      }
    }
  }

  // The preview arranges exactly the rows.
  lemma PreviewIsComplete(rows: seq<Row>, order: seq<NodeId>)
    requires DistinctIds(rows)
    ensures multiset(Preview(rows, order)) == multiset(rows) && DistinctIds(Preview(rows, order))
    ensures Preview(rows, order)[|Positioned(rows, order)|..] == Rest(rows, order)
  {
    var top, rest := Positioned(rows, order), Rest(rows, order);
    PositionedMembers(rows, order);
    RestMembers(rows, order);
    PositionedInOrder(rows, order, order, true);
    InOrderIsDistinct(Sorting(order, true), top, rows);
    InOrderIsDistinct(Sorting([], false), rest, rows);
    DistinctConcat(top, rest);
    forall r ensures r in top + rest <==> r in rows {
      assert r in top + rest <==> r in top || r in rest;
    }
    SameRows(top + rest, rows);
  }

  // The preview in the same terms: by place, then by the internal name.
  lemma PreviewOrderIs(rows: seq<Row>, order: seq<NodeId>)
    requires DistinctIds(rows) && |order| < UNPOSITIONED
    ensures forall i, j :: 0 <= i < j < |Preview(rows, order)| ==>
      ComesFirst(order, false, Preview(rows, order)[i], Preview(rows, order)[j])
  {
    var top, rest, s := Positioned(rows, order), Rest(rows, order), Sorting(order, false);
    RestMembers(rows, order);
    PositionedMembers(rows, order);
    PositionedInOrder(rows, order, order, false);
    PreviewIsComplete(rows, order);
    forall i, j | 0 <= i < j < |rest| ensures Before(s, rest[i], rest[j]) {
      assert rest[i] in rest && rest[j] in rest;
      assert Before(Sorting([], false), rest[i], rest[j]);
    }
    forall a, b | a in top && b in rest ensures Before(s, a, b) {
      assert Position(order, a.id) < |order|;
    }
    InOrderConcat(s, top, rest);
    forall i, j | 0 <= i < j < |top + rest| ensures ComesFirst(order, false, (top + rest)[i], (top + rest)[j]) {
      BeforeIff(order, false, (top + rest)[i], (top + rest)[j]);
    }
  }

  // Two rows the admin has not positioned compare alike under the name users see
  // and under the internal name.
  ghost predicate NamesAgree(rows: seq<Row>, order: seq<NodeId>) {
    forall a, b :: a in rows && b in rows && a.id !in order && b.id !in order ==>
      (Before(Sorting([], false), a, b) <==> Before(Sorting([], true), a, b))
  }

  // The preview is the users' order exactly when internal and shown names sort
  // the unpositioned rows alike. (An order has fewer entries than UNPOSITIONED.)
  lemma PreviewMatchesIff(rows: seq<Row>, order: seq<NodeId>)
    requires DistinctIds(rows) && |order| < UNPOSITIONED
    ensures Preview(rows, order) == OrderForUsers(rows, order) <==> NamesAgree(rows, order)
  {
    if NamesAgree(rows, order) {
      AgreedPreviewInOrder(rows, order);
      PreviewIsComplete(rows, order);
      SortInOrder(Sorting(order, true), rows);
      InOrderIsUnique(Sorting(order, true), Preview(rows, order), OrderForUsers(rows, order));
    }
    if Preview(rows, order) == OrderForUsers(rows, order) {
      MatchedNamesAgree(rows, order);
    }
  }

  lemma AgreedPreviewInOrder(rows: seq<Row>, order: seq<NodeId>)
    requires DistinctIds(rows) && |order| < UNPOSITIONED && NamesAgree(rows, order)
    ensures InOrder(Sorting(order, true), Preview(rows, order))
  {
    var top, rest := Positioned(rows, order), Rest(rows, order);
    RestMembers(rows, order);
    PositionedMembers(rows, order);
    PositionedInOrder(rows, order, order, true);
    forall i, j | 0 <= i < j < |rest| ensures Before(Sorting(order, true), rest[i], rest[j]) {
      assert rest[i] in rest && rest[j] in rest;
      assert Before(Sorting([], false), rest[i], rest[j]);
    }
    forall a, b | a in top && b in rest ensures Before(Sorting(order, true), a, b) {
      assert Position(order, a.id) < |order|;
    }
    InOrderConcat(Sorting(order, true), top, rest);
  }

  lemma InOrderConcat(s: Sorting, top: seq<Row>, rest: seq<Row>)
    requires InOrder(s, top) && InOrder(s, rest) && forall a, b :: a in top && b in rest ==> Before(s, a, b)
    ensures InOrder(s, top + rest)
  {
    forall i, j | 0 <= i < j < |top + rest| ensures Before(s, (top + rest)[i], (top + rest)[j]) {
      if i < |top| <= j {
        assert top[i] in top && rest[j - |top|] in rest;
      }
    }
  }

  lemma MatchedNamesAgree(rows: seq<Row>, order: seq<NodeId>)
    requires DistinctIds(rows) && Preview(rows, order) == OrderForUsers(rows, order)
    ensures NamesAgree(rows, order)
  {
    RestMembers(rows, order);
    SortInOrder(Sorting(order, true), rows);
    forall a, b | a in rows && b in rows && a.id !in order && b.id !in order
      ensures Before(Sorting([], false), a, b) <==> Before(Sorting([], true), a, b)
    {
      TailPair(Positioned(rows, order), Rest(rows, order), order, a, b);
    }
  }

  lemma TailPair(top: seq<Row>, rest: seq<Row>, order: seq<NodeId>, a: Row, b: Row)
    requires InOrder(Sorting([], false), rest) && InOrder(Sorting(order, true), top + rest)
    requires a in rest && b in rest && a.id !in order && b.id !in order
    ensures Before(Sorting([], false), a, b) <==> Before(Sorting([], true), a, b)
  {
    var i :| 0 <= i < |rest| && rest[i] == a;
    var j :| 0 <= j < |rest| && rest[j] == b;
    assert (top + rest)[|top| + i] == a && (top + rest)[|top| + j] == b;
    assert Position(order, a.id) == Position(order, b.id);
    if i < j {
      assert Before(Sorting(order, true), (top + rest)[|top| + i], (top + rest)[|top| + j]);
    } else if j < i {
      assert Before(Sorting(order, true), (top + rest)[|top| + j], (top + rest)[|top| + i]);
    }
  }

  // Without public names the two always agree.
  lemma PlainNamesMatch(rows: seq<Row>, order: seq<NodeId>)
    requires DistinctIds(rows) && |order| < UNPOSITIONED
    requires forall r :: r in rows && r.id !in order ==> r.publicName.None?
    ensures Preview(rows, order) == OrderForUsers(rows, order)
  {
    PreviewMatchesIff(rows, order);
  }

  // A public name can part them: the preview then shows two servers the other
  // way round from the users' list.
  lemma PublicNameParts(a: NodeId, b: NodeId, low: int, high: int)
    requires a != b && low < high
    ensures var rows := [Row(a, low, Some(high)), Row(b, low + 1, Some(low))];
      DistinctIds(rows) && Preview(rows, []) != OrderForUsers(rows, [])
  {
    var rows := [Row(a, low, Some(high)), Row(b, low + 1, Some(low))];
    assert rows[0] in rows && rows[1] in rows;
    assert Before(Sorting([], false), rows[0], rows[1]) && !Before(Sorting([], true), rows[0], rows[1]);
    PreviewMatchesIff(rows, []);
  }
}
