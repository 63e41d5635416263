// Closed address ranges of one family: sort-and-merge, carving blocks out of a
// range, sizes, and the fewest prefixes for a whole set of ranges.
module Ranges {
  import opened Powers
  import opened Prefixes

  datatype Range = Range(start: nat, end: nat)

  ghost predicate WellFormed(rs: seq<Range>) {
    forall i :: 0 <= i < |rs| ==> rs[i].start <= rs[i].end
  }

  ghost predicate Within(rs: seq<Range>, limit: nat) {
    forall i :: 0 <= i < |rs| ==> rs[i].end < limit
  }

  // `a` is an address of one of the ranges.
  ghost predicate In(rs: seq<Range>, a: int) {
    exists i :: 0 <= i < |rs| && rs[i].start <= a <= rs[i].end
  }

  ghost predicate SameAddresses(xs: seq<Range>, ys: seq<Range>) {
    forall a: int :: In(xs, a) <==> In(ys, a)
  }

  // Sorted, disjoint and never adjacent: at least one address lies between
  // any two ranges.
  ghost predicate Canonical(rs: seq<Range>) {
    && WellFormed(rs)
    && forall i, j :: 0 <= i < j < |rs| ==> rs[i].end + 1 < rs[j].start
  }

  lemma InConcat(xs: seq<Range>, ys: seq<Range>, a: int)
    ensures In(xs + ys, a) <==> In(xs, a) || In(ys, a)
  {
    var all := xs + ys;
    if In(xs, a) {
      var i :| 0 <= i < |xs| && xs[i].start <= a <= xs[i].end;
      assert all[i] == xs[i];
    }
    if In(ys, a) {
      var i :| 0 <= i < |ys| && ys[i].start <= a <= ys[i].end;
      assert all[|xs| + i] == ys[i];
    }
    if In(all, a) && !In(xs, a) {
      var i :| 0 <= i < |all| && all[i].start <= a <= all[i].end;
      assert i >= |xs| ==> ys[i - |xs|] == all[i];
    }
  }

  lemma InCons(rs: seq<Range>, a: int)
    requires rs != []
    ensures In(rs, a) <==> rs[0].start <= a <= rs[0].end || In(rs[1..], a)
  {
    InConcat([rs[0]], rs[1..], a);
    assert [rs[0]] + rs[1..] == rs;
    assert [rs[0]][0] == rs[0];
  }

  // ---- Sorting (the library sort, stable, by start) --------------------------

  ghost predicate Sorted(rs: seq<Range>) {
    forall i, j :: 0 <= i < j < |rs| ==> rs[i].start <= rs[j].start
  }

  function Insert(r: Range, rs: seq<Range>): (out: seq<Range>)
    ensures multiset(out) == multiset(rs) + multiset{r}
  {
    if rs == [] || r.start <= rs[0].start then [r] + rs
    else
      assert [rs[0]] + rs[1..] == rs;
      [rs[0]] + Insert(r, rs[1..])
  }

  lemma {:induction false} InsertSorted(r: Range, rs: seq<Range>)
    requires Sorted(rs)
    ensures Sorted(Insert(r, rs))
  {
    if rs != [] && r.start > rs[0].start {
      var rest := Insert(r, rs[1..]);
      InsertSorted(r, rs[1..]);
      forall i | 0 <= i < |rest| ensures rs[0].start <= rest[i].start {
        assert rest[i] in multiset(rest);
        assert rest[i] == r || rest[i] in rs[1..];
      }
    }
  }

  function SortByStart(rs: seq<Range>): (out: seq<Range>)
    ensures multiset(out) == multiset(rs)
    ensures Sorted(out)
  {
    if rs == [] then []
    else
      assert [rs[0]] + rs[1..] == rs;
      InsertSorted(rs[0], SortByStart(rs[1..]));
      Insert(rs[0], SortByStart(rs[1..]))
  }

  lemma SameElementsSameAddresses(xs: seq<Range>, ys: seq<Range>)
    requires multiset(xs) == multiset(ys)
    ensures SameAddresses(xs, ys)
    ensures WellFormed(xs) ==> WellFormed(ys)
    ensures forall limit :: Within(xs, limit) ==> Within(ys, limit)
  {
    SameElements(xs, ys);
    SameElements(ys, xs);
    forall a: int ensures In(xs, a) <==> In(ys, a) {
      if In(xs, a) {
        var i :| 0 <= i < |xs| && xs[i].start <= a <= xs[i].end;
        assert xs[i] in ys;
      }
      if In(ys, a) {
        var i :| 0 <= i < |ys| && ys[i].start <= a <= ys[i].end;
        assert ys[i] in xs;
      }
    }
    forall limit | Within(xs, limit) ensures Within(ys, limit) {
      forall i | 0 <= i < |ys| ensures ys[i].end < limit {
        assert ys[i] in xs;
      }
    }
  }

  lemma SameElements(xs: seq<Range>, ys: seq<Range>)
    requires multiset(xs) == multiset(ys)
    ensures forall i :: 0 <= i < |xs| ==> xs[i] in ys
  {
    forall i | 0 <= i < |xs| ensures xs[i] in ys {
      assert xs[i] in multiset(ys);
    }
  }

  // ---- Merging ---------------------------------------------------------------

  // One round of the merge loop: widen the last merged range or start a new one.
  function MergeOne(merged: seq<Range>, r: Range): seq<Range> {
    if merged == [] then [r]
    else
      var last := merged[|merged| - 1];
      if r.start <= last.end + 1 then
        if r.end > last.end then merged[|merged| - 1 := Range(last.start, r.end)] else merged
      else merged + [r]
  }

  function MergeSorted(merged: seq<Range>, rest: seq<Range>): seq<Range>
    decreases |rest|
  {
    if rest == [] then merged else MergeSorted(MergeOne(merged, rest[0]), rest[1..])
  }

  function Merge(rs: seq<Range>): seq<Range> {
    MergeSorted([], SortByStart(rs))
  }

  method MergeRanges(ranges: seq<Range>) returns (merged: seq<Range>)
    ensures merged == Merge(ranges)
  {
    var sorted := SortByStart(ranges);
    merged := [];
    for n := 0 to |sorted|
      invariant MergeSorted(merged, sorted[n..]) == Merge(ranges)
    {
      var range := sorted[n];
      assert sorted[n..][0] == range && sorted[n..][1..] == sorted[n + 1..];
      ghost var before := merged;
      if merged != [] && range.start <= merged[|merged| - 1].end + 1 {
        var last := merged[|merged| - 1];
        if range.end > last.end {
          merged := merged[|merged| - 1 := Range(last.start, range.end)];
        }
      } else {
        merged := merged + [range];
      }
      assert merged == MergeOne(before, range);
    }
    assert sorted[|sorted|..] == [];
  }

  lemma MergeOneKeeps(merged: seq<Range>, r: Range)
    requires Canonical(merged) && r.start <= r.end
    requires merged != [] ==> merged[|merged| - 1].start <= r.start
    ensures var m := MergeOne(merged, r);
      && Canonical(m) && m != [] && m[|m| - 1].start <= r.start
      && forall a: int :: In(m, a) <==> In(merged, a) || r.start <= a <= r.end
  {
    var m := MergeOne(merged, r);
    if merged == [] {
      assert m[0] == r;
    } else {
      var n := |merged| - 1;
      var init := merged[..n];
      var last := merged[n];
      assert merged == init + [last];
      forall a: int ensures In(m, a) <==> In(merged, a) || r.start <= a <= r.end {
        InConcat(init, [last], a);
        InConcat(merged, [r], a);
        if r.start <= last.end + 1 {
          var wide := if r.end > last.end then Range(last.start, r.end) else last;
          assert m == init + [wide];
          InConcat(init, [wide], a);
          assert In([wide], a) <==> wide.start <= a <= wide.end by { assert [wide][0] == wide; }
        }
        assert In([last], a) <==> last.start <= a <= last.end by { assert [last][0] == last; }
        assert In([r], a) <==> r.start <= a <= r.end by { assert [r][0] == r; }
      }
    }
  }

  lemma {:induction false} MergeSortedKeeps(merged: seq<Range>, rest: seq<Range>)
    requires Canonical(merged) && WellFormed(rest) && Sorted(rest)
    requires merged != [] && rest != [] ==> merged[|merged| - 1].start <= rest[0].start
    ensures Canonical(MergeSorted(merged, rest))
    ensures forall a: int :: In(MergeSorted(merged, rest), a) <==> In(merged, a) || In(rest, a)
    decreases |rest|
  {
    if rest != [] {
      var m := MergeOne(merged, rest[0]);
      MergeOneKeeps(merged, rest[0]);
      MergeSortedKeeps(m, rest[1..]);
      forall a: int ensures In(MergeSorted(merged, rest), a) <==> In(merged, a) || In(rest, a) {
        InCons(rest, a);
      }
    }
  }

  // Merging yields the canonical ranges of exactly the same addresses.
  lemma MergeCorrect(rs: seq<Range>)
    requires WellFormed(rs)
    ensures Canonical(Merge(rs)) && SameAddresses(Merge(rs), rs)
  {
    SameElementsSameAddresses(SortByStart(rs), rs);
    SameElementsSameAddresses(rs, SortByStart(rs));
    MergeSortedKeeps([], SortByStart(rs));
  }

  lemma CanonicalHead(rs: seq<Range>, a: int)
    requires Canonical(rs) && rs != []
    ensures In(rs, a) ==> rs[0].start <= a
    ensures In(rs, a) && a > rs[0].end ==> In(rs[1..], a)
    ensures In(rs[1..], a) ==> In(rs, a) && a > rs[0].end + 1
  {
    InCons(rs, a);
    if In(rs[1..], a) {
      var i :| 0 <= i < |rs[1..]| && rs[1..][i].start <= a <= rs[1..][i].end;
      assert rs[1..][i] == rs[i + 1];
    }
  }

  // A set of addresses has one canonical list of ranges.
  lemma SameFirstRange(xs: seq<Range>, ys: seq<Range>)
    requires Canonical(xs) && Canonical(ys) && SameAddresses(xs, ys) && xs != [] && ys != []
    ensures xs[0] == ys[0]
  {
    var x, y := xs[0], ys[0];
    assert In(xs, x.start) && In(ys, y.start);
    CanonicalHead(xs, y.start);
    CanonicalHead(ys, x.start);
    assert x.start == y.start;
    EndsNoLater(xs, ys);
    EndsNoLater(ys, xs);
  }

  lemma EndsNoLater(xs: seq<Range>, ys: seq<Range>)
    requires Canonical(xs) && Canonical(ys) && SameAddresses(xs, ys) && xs != [] && ys != []
    requires xs[0].start == ys[0].start
    ensures ys[0].end <= xs[0].end
  {
    var next := xs[0].end + 1;
    CanonicalHead(xs, next);
    assert !In(xs[1..], next) by { CanonicalHead(xs, next); }
    assert !In(xs, next) && !In(ys, next);
  }

  lemma SameTails(xs: seq<Range>, ys: seq<Range>)
    requires Canonical(xs) && Canonical(ys) && SameAddresses(xs, ys) && xs != [] && ys != [] && xs[0] == ys[0]
    ensures SameAddresses(xs[1..], ys[1..])
  {
    forall a: int ensures In(xs[1..], a) <==> In(ys[1..], a) {
      CanonicalHead(xs, a);
      CanonicalHead(ys, a);
      assert In(xs, a) <==> In(ys, a);
    }
  }

  lemma CanonicalTail(rs: seq<Range>)
    requires Canonical(rs) && rs != []
    ensures Canonical(rs[1..]) && rs == [rs[0]] + rs[1..]
  {}

  lemma FirstAddress(rs: seq<Range>)
    requires Canonical(rs) && rs != []
    ensures In(rs, rs[0].start)
  {}

  // A set of addresses has one canonical list of ranges.
  lemma {:induction false} CanonicalUnique(xs: seq<Range>, ys: seq<Range>)
    requires Canonical(xs) && Canonical(ys) && SameAddresses(xs, ys)
    ensures xs == ys
    decreases |xs|
  {
    if ys != [] {
      FirstAddress(ys);
    }
    if xs != [] {
      FirstAddress(xs);
      SameFirstRange(xs, ys);
      SameTails(xs, ys);
      CanonicalTail(xs);
      CanonicalTail(ys);
      CanonicalUnique(xs[1..], ys[1..]);
    }
  }

  // ---- Carving ---------------------------------------------------------------

  // What is left of [s, e] outside `blocks`.
  function Carve(s: nat, e: nat, blocks: seq<Range>): seq<Range>
    decreases |blocks|
  {
    if s > e then []
    else if blocks == [] || blocks[0].start > e then [Range(s, e)]
    else if blocks[0].end < s then Carve(s, e, blocks[1..])
    else
      (if blocks[0].start > s then [Range(s, blocks[0].start - 1)] else [])
      + Carve(blocks[0].end + 1, e, blocks[1..])
  }

  lemma GapBefore(s: nat, block: Range, a: int)
    ensures var gap := if block.end >= s && block.start > s then [Range(s, block.start - 1)] else [];
      In(gap, a) <==> block.end >= s && s <= a < block.start
  {
    if block.end >= s && block.start > s {
      assert [Range(s, block.start - 1)][0] == Range(s, block.start - 1);
    }
  }

  lemma CarveCoversStep(s: nat, e: nat, blocks: seq<Range>, from: nat, a: int)
    requires Canonical(blocks) && blocks != [] && s <= e && blocks[0].start <= e
    requires from == if blocks[0].end < s then s else blocks[0].end + 1
    requires In(Carve(from, e, blocks[1..]), a) <==> from <= a <= e && !In(blocks[1..], a)
    ensures In(Carve(s, e, blocks), a) <==> s <= a <= e && !In(blocks, a)
  {
    var gap := if blocks[0].end >= s && blocks[0].start > s then [Range(s, blocks[0].start - 1)] else [];
    assert Carve(s, e, blocks) == gap + Carve(from, e, blocks[1..]);
    InConcat(gap, Carve(from, e, blocks[1..]), a);
    GapBefore(s, blocks[0], a);
    InCons(blocks, a);
    CanonicalHead(blocks, a);
  }

  lemma {:induction false} CarveExact(s: nat, e: nat, blocks: seq<Range>)
    requires Canonical(blocks)
    ensures WellFormed(Carve(s, e, blocks))
    ensures Within(Carve(s, e, blocks), e + 1)
    ensures forall a: int :: In(Carve(s, e, blocks), a) <==> s <= a <= e && !In(blocks, a)
    decreases |blocks|
  {
    var out := Carve(s, e, blocks);
    if s > e {
    } else if blocks == [] || blocks[0].start > e {
      assert out[0] == Range(s, e);
      forall a: int ensures In(out, a) <==> s <= a <= e && !In(blocks, a) {
        if blocks != [] {
          CanonicalHead(blocks, a);
        }
      }
    } else {
      var from := if blocks[0].end < s then s else blocks[0].end + 1;
      CarveExact(from, e, blocks[1..]);
      forall a: int ensures In(out, a) <==> s <= a <= e && !In(blocks, a) {
        CarveCoversStep(s, e, blocks, from, a);
      }
    }
  }

  // Blocks that end before `s` do not matter, so the search may start later.
  lemma {:induction false} CarveSkip(s: nat, e: nat, blocks: seq<Range>, low: nat)
    requires s <= e && Canonical(blocks) && low <= |blocks|
    requires forall i :: 0 <= i < low ==> blocks[i].end < s
    ensures Carve(s, e, blocks) == Carve(s, e, blocks[low..])
    decreases low
  {
    if low > 0 {
      CarveSkip(s, e, blocks[1..], low - 1);
      assert blocks[1..][low - 1..] == blocks[low..];
    }
  }

  // ---- Sizes -----------------------------------------------------------------

  function Total(rs: seq<Range>): nat
    requires WellFormed(rs)
  {
    if rs == [] then 0 else rs[0].end - rs[0].start + 1 + Total(rs[1..])
  }

  function SizeOf(rs: seq<Range>): nat
    requires WellFormed(rs)
  {
    MergeCorrect(rs);
    Total(Merge(rs))
  }

  ghost function Addresses(rs: seq<Range>, limit: nat): set<int> {
    set a: int | 0 <= a < limit && In(rs, a)
  }

  ghost function Interval(lo: int, hi: int): (r: set<int>)
    ensures forall a :: a in r <==> lo <= a < hi
    ensures lo <= hi ==> |r| == hi - lo
    decreases hi - lo
  {
    if lo >= hi then {} else Interval(lo, hi - 1) + {hi - 1}
  }

  lemma AddressesSplit(rs: seq<Range>, limit: nat)
    requires Canonical(rs) && Within(rs, limit) && rs != []
    ensures Addresses(rs, limit) == Interval(rs[0].start, rs[0].end + 1) + Addresses(rs[1..], limit)
    ensures Interval(rs[0].start, rs[0].end + 1) !! Addresses(rs[1..], limit)
  {
    forall a: int
      ensures In(rs, a) <==> rs[0].start <= a <= rs[0].end || In(rs[1..], a)
      ensures In(rs[1..], a) ==> a > rs[0].end + 1
    {
      InCons(rs, a);
      CanonicalHead(rs, a);
    }
  }

  lemma {:induction false} TotalCounts(rs: seq<Range>, limit: nat)
    requires Canonical(rs) && Within(rs, limit)
    ensures Total(rs) == |Addresses(rs, limit)|
    decreases |rs|
  {
    if rs == [] {
      assert Addresses(rs, limit) == {};
    } else {
      AddressesSplit(rs, limit);
      TotalCounts(rs[1..], limit);
    }
  }

  // `sizeOf` counts each covered address once, whatever the overlaps.
  lemma SizeCounts(rs: seq<Range>, limit: nat)
    requires WellFormed(rs) && Within(rs, limit)
    ensures SizeOf(rs) == |Addresses(rs, limit)|
  {
    MergeCorrect(rs);
    var m := Merge(rs);
    SameAddressesWithin(rs, m, limit);
    TotalCounts(m, limit);
    assert Addresses(m, limit) == Addresses(rs, limit);
  }

  lemma SameAddressesWithin(xs: seq<Range>, ys: seq<Range>, limit: nat)
    requires WellFormed(ys) && Within(xs, limit) && SameAddresses(xs, ys)
    ensures Within(ys, limit)
  {
    forall i | 0 <= i < |ys| ensures ys[i].end < limit {
      assert In(ys, ys[i].end);
      assert In(xs, ys[i].end);
      var j :| 0 <= j < |xs| && xs[j].start <= ys[i].end <= xs[j].end;
    }
  }

  // ---- The fewest prefixes for a set of ranges --------------------------------

  function DecomposeAll(bits: nat, rs: seq<Range>): seq<Prefix> {
    if rs == [] then []
    else Decompose(bits, rs[0].start, rs[0].end) + DecomposeAll(bits, rs[1..])
  }

  lemma CoversConcat(ps: seq<Prefix>, qs: seq<Prefix>, a: int)
    ensures Covers(ps + qs, a) <==> Covers(ps, a) || Covers(qs, a)
  {
    var all := ps + qs;
    if Covers(ps, a) {
      var i :| 0 <= i < |ps| && InPrefix(ps[i], a);
      assert InPrefix(all[i], a);
    }
    if Covers(qs, a) {
      var i :| 0 <= i < |qs| && InPrefix(qs[i], a);
      assert InPrefix(all[|ps| + i], a);
    }
    if Covers(all, a) {
      var i :| 0 <= i < |all| && InPrefix(all[i], a);
      if i < |ps| {
        assert InPrefix(ps[i], a);
      } else {
        assert InPrefix(qs[i - |ps|], a);
      }
    }
  }

  lemma {:induction false} DecomposeAllExact(bits: nat, rs: seq<Range>)
    requires WellFormed(rs) && Within(rs, Pow2(bits))
    ensures AllValid(bits, DecomposeAll(bits, rs))
    ensures forall a: int :: Covers(DecomposeAll(bits, rs), a) <==> In(rs, a)
    decreases |rs|
  {
    if rs != [] {
      DecomposeExact(bits, rs[0].start, rs[0].end);
      DecomposeAllExact(bits, rs[1..]);
      forall a: int ensures Covers(DecomposeAll(bits, rs), a) <==> In(rs, a) {
        CoversConcat(Decompose(bits, rs[0].start, rs[0].end), DecomposeAll(bits, rs[1..]), a);
        InCons(rs, a);
      }
    }
  }

  function StartingBefore(ps: seq<Prefix>, from: int): (r: seq<Prefix>)
    ensures |r| + |StartingFrom(ps, from)| == |ps|
    ensures forall i :: 0 <= i < |r| ==> r[i] in ps && r[i].base < from
    ensures forall i :: 0 <= i < |ps| && ps[i].base < from ==> ps[i] in r
  {
    if ps == [] then []
    else
      var rest := StartingBefore(ps[1..], from);
      assert forall i :: 1 <= i < |ps| ==> ps[i] == ps[1..][i - 1];
      if ps[0].base < from then [ps[0]] + rest else rest
  }

  // No block of an exact cover can span the gap after the first range.
  lemma EndsBeforeGap(ps: seq<Prefix>, rs: seq<Range>, p: Prefix)
    requires rs != [] && Canonical(rs) && p in ps && p.base <= rs[0].end
    requires forall a: int :: Covers(ps, a) <==> In(rs, a)
    ensures rs[0].start <= p.base && p.base + Pow2(p.host) - 1 <= rs[0].end
  {
    var gap := rs[0].end + 1;
    CanonicalHead(rs, p.base);
    CanonicalHead(rs, gap);
    assert InPrefix(p, p.base);
    assert Covers(ps, p.base);
    if p.base + Pow2(p.host) > gap {
      assert InPrefix(p, gap);
    }
  }

  lemma CoversSplit(ps: seq<Prefix>, from: int, a: int)
    ensures Covers(ps, a) <==> Covers(StartingBefore(ps, from), a) || Covers(StartingFrom(ps, from), a)
  {
    var before, after := StartingBefore(ps, from), StartingFrom(ps, from);
    if Covers(before, a) {
      var i :| 0 <= i < |before| && InPrefix(before[i], a);
      assert before[i] in ps;
    }
    if Covers(after, a) {
      var i :| 0 <= i < |after| && InPrefix(after[i], a);
      assert after[i] in ps;
    }
    if Covers(ps, a) {
      var i :| 0 <= i < |ps| && InPrefix(ps[i], a);
      assert ps[i] in before || ps[i] in after;
    }
  }

  lemma SplitAtGapHere(ps: seq<Prefix>, rs: seq<Range>, a: int)
    requires rs != [] && Canonical(rs)
    requires forall x: int :: Covers(ps, x) <==> In(rs, x)
    ensures Covers(StartingBefore(ps, rs[0].end + 1), a) <==> rs[0].start <= a <= rs[0].end
    ensures Covers(StartingFrom(ps, rs[0].end + 1), a) <==> In(rs[1..], a)
  {
    var before := StartingBefore(ps, rs[0].end + 1);
    InCons(rs, a);
    CanonicalHead(rs, a);
    CoversSplit(ps, rs[0].end + 1, a);
    if Covers(before, a) {
      var i :| 0 <= i < |before| && InPrefix(before[i], a);
      EndsBeforeGap(ps, rs, before[i]);
    }
    if Covers(StartingFrom(ps, rs[0].end + 1), a) {
      CoveredFromGap(ps, rs[0].end + 1, a);
    }
  }

  lemma CoveredFromGap(ps: seq<Prefix>, from: int, a: int)
    requires Covers(StartingFrom(ps, from), a)
    ensures a >= from
  {
    var after := StartingFrom(ps, from);
    var i :| 0 <= i < |after| && InPrefix(after[i], a);
    assert after[i] in after;
  }

  lemma SplitAtGap(bits: nat, ps: seq<Prefix>, rs: seq<Range>)
    requires rs != [] && Canonical(rs) && AllValid(bits, ps)
    requires forall a: int :: Covers(ps, a) <==> In(rs, a)
    ensures CoversExactly(StartingBefore(ps, rs[0].end + 1), rs[0].start, rs[0].end)
    ensures forall a: int :: Covers(StartingFrom(ps, rs[0].end + 1), a) <==> In(rs[1..], a)
  {
    var before, after := StartingBefore(ps, rs[0].end + 1), StartingFrom(ps, rs[0].end + 1);
    forall a: int ensures Covers(before, a) <==> rs[0].start <= a <= rs[0].end {
      SplitAtGapHere(ps, rs, a);
    }
    forall a: int ensures Covers(after, a) <==> In(rs[1..], a) {
      SplitAtGapHere(ps, rs, a);
    }
  }

  // Ranges that are never adjacent need their prefixes separately, so the
  // range-by-range decomposition is the fewest prefixes overall.
  lemma {:induction false} DecomposeAllMinimal(bits: nat, ps: seq<Prefix>, rs: seq<Range>)
    requires Canonical(rs) && AllValid(bits, ps)
    requires forall a: int :: Covers(ps, a) <==> In(rs, a)
    ensures |DecomposeAll(bits, rs)| <= |ps|
    decreases |rs|
  {
    if rs != [] {
      SplitAtGap(bits, ps, rs);
      DecomposeMinimal(bits, StartingBefore(ps, rs[0].end + 1), rs[0].start, rs[0].end);
      DecomposeAllMinimal(bits, StartingFrom(ps, rs[0].end + 1), rs[1..]);
    }
  }

  // ---- Order -----------------------------------------------------------------

  // Each block ends before the next one starts.
  ghost predicate InAddressOrder(ps: seq<Prefix>) {
    forall i, j :: 0 <= i < j < |ps| ==> ps[i].base + Pow2(ps[i].host) <= ps[j].base
  }

  lemma {:induction false} DecomposeOrdered(bits: nat, s: nat, e: int)
    ensures InAddressOrder(Decompose(bits, s, e))
    ensures forall i :: 0 <= i < |Decompose(bits, s, e)| ==>
              s <= Decompose(bits, s, e)[i].base
              && Decompose(bits, s, e)[i].base + Pow2(Decompose(bits, s, e)[i].host) <= e + 1
    decreases e - s
  {
    if s <= e {
      DecomposeOrdered(bits, s + Pow2(FirstBlock(bits, s, e)), e);
    }
  }

  lemma {:induction false} DecomposeAllOrdered(bits: nat, rs: seq<Range>)
    requires Canonical(rs)
    ensures InAddressOrder(DecomposeAll(bits, rs))
    ensures rs != [] ==> forall i :: 0 <= i < |DecomposeAll(bits, rs)| ==>
                           rs[0].start <= DecomposeAll(bits, rs)[i].base
    decreases |rs|
  {
    if rs != [] {
      DecomposeOrdered(bits, rs[0].start, rs[0].end);
      DecomposeAllOrdered(bits, rs[1..]);
    }
  }
}
