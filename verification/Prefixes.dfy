// Aligned address blocks ("prefixes") and the greedy decomposition of a closed
// range into the fewest of them. The address width `bits` stays symbolic: 32
// and 128 are the instances the program uses.
module Prefixes {
  import opened Powers

  // The block [base, base + 2^host - 1]; its printed length is bits - host.
  datatype Prefix = Prefix(base: nat, host: nat)

  predicate ValidPrefix(bits: nat, p: Prefix) {
    p.host <= bits && Aligned(p.base, p.host) && p.base + Pow2(p.host) <= Pow2(bits)
  }

  predicate InPrefix(p: Prefix, a: int) {
    p.base <= a < p.base + Pow2(p.host)
  }

  ghost predicate Covers(ps: seq<Prefix>, a: int) {
    exists i :: 0 <= i < |ps| && InPrefix(ps[i], a)
  }

  ghost predicate AllValid(bits: nat, ps: seq<Prefix>) {
    forall i :: 0 <= i < |ps| ==> ValidPrefix(bits, ps[i])
  }

  ghost predicate CoversExactly(ps: seq<Prefix>, s: int, e: int) {
    forall a: int :: Covers(ps, a) <==> s <= a <= e
  }

  // Whether the block of 2^k addresses at `cursor` is aligned and ends by `end`.
  predicate Fits(bits: nat, cursor: nat, end: int, k: nat) {
    k <= bits && Aligned(cursor, k) && cursor + Pow2(k) - 1 <= end
  }

  // The inner search of `rangeToCidrs`: grow the block while it fits.
  function Widest(bits: nat, cursor: nat, end: int, h: nat): (r: nat)
    requires Fits(bits, cursor, end, h)
    ensures h <= r && Fits(bits, cursor, end, r)
    decreases bits - h
  {
    if Fits(bits, cursor, end, h + 1) then Widest(bits, cursor, end, h + 1) else h
  }

  lemma {:induction false} WidestIsMaximal(bits: nat, cursor: nat, end: int, h: nat, k: nat)
    requires Fits(bits, cursor, end, h) && Fits(bits, cursor, end, k)
    ensures k <= Widest(bits, cursor, end, h)
    decreases bits - h
  {
    if Fits(bits, cursor, end, h + 1) {
      WidestIsMaximal(bits, cursor, end, h + 1, k);
    } else if k > h {
      AlignedDown(cursor, h + 1, k);
      Pow2Mono(h + 1, k);
      assert false;
    }
  }

  function FirstBlock(bits: nat, cursor: nat, end: int): (h: nat)
    requires cursor <= end
    ensures Fits(bits, cursor, end, h)
  {
    Widest(bits, cursor, end, 0)
  }

  function Decompose(bits: nat, s: nat, e: int): (ps: seq<Prefix>)
    decreases e - s
  {
    if s > e then []
    else
      var h := FirstBlock(bits, s, e);
      [Prefix(s, h)] + Decompose(bits, s + Pow2(h), e)
  }

  // The loops of `rangeToCidrs`, pushing one block per round.
  method RangeToPrefixes(bits: nat, start: nat, end: int) returns (out: seq<Prefix>)
    ensures out == Decompose(bits, start, end)
  {
    out := [];
    var cursor := start;
    while cursor <= end
      invariant out + Decompose(bits, cursor, end) == Decompose(bits, start, end)
      decreases end - cursor
    {
      var hostBits := 0;
      while hostBits < bits && Aligned(cursor, hostBits + 1) && cursor + Pow2(hostBits + 1) - 1 <= end
        invariant Fits(bits, cursor, end, hostBits)
        invariant Widest(bits, cursor, end, hostBits) == FirstBlock(bits, cursor, end)
        decreases bits - hostBits
      {
        hostBits := hostBits + 1;
      }
      out := out + [Prefix(cursor, hostBits)];
      cursor := cursor + Pow2(hostBits);
    }
  }

  // ---- Exactness -----------------------------------------------------------

  lemma CoversCons(p: Prefix, ps: seq<Prefix>, a: int)
    ensures Covers([p] + ps, a) <==> InPrefix(p, a) || Covers(ps, a)
  {
    var all := [p] + ps;
    if InPrefix(p, a) {
      assert InPrefix(all[0], a);
    }
    if Covers(ps, a) {
      var i :| 0 <= i < |ps| && InPrefix(ps[i], a);
      assert InPrefix(all[i + 1], a);
    }
    if Covers(all, a) && !InPrefix(p, a) {
      var i :| 0 <= i < |all| && InPrefix(all[i], a);
      assert InPrefix(ps[i - 1], a);
    }
  }

  lemma {:induction false} DecomposeExact(bits: nat, s: nat, e: int)
    requires e < Pow2(bits)
    ensures AllValid(bits, Decompose(bits, s, e))
    ensures CoversExactly(Decompose(bits, s, e), s, e)
    decreases e - s
  {
    if s <= e {
      var h := FirstBlock(bits, s, e);
      var rest := Decompose(bits, s + Pow2(h), e);
      DecomposeExact(bits, s + Pow2(h), e);
      forall a: int ensures Covers([Prefix(s, h)] + rest, a) <==> s <= a <= e {
        CoversCons(Prefix(s, h), rest, a);
      }
    }
  }

  // ---- Minimality ----------------------------------------------------------

  // The blocks that start at `from` or later.
  function StartingFrom(ps: seq<Prefix>, from: int): (r: seq<Prefix>)
    ensures |r| <= |ps|
    ensures (exists i :: 0 <= i < |ps| && ps[i].base < from) ==> |r| < |ps|
    ensures forall i :: 0 <= i < |r| ==> r[i] in ps && from <= r[i].base
    ensures forall i :: 0 <= i < |ps| && from <= ps[i].base ==> ps[i] in r
  {
    if ps == [] then []
    else
      var rest := StartingFrom(ps[1..], from);
      assert forall i :: 1 <= i < |ps| ==> ps[i] == ps[1..][i - 1];
      if ps[0].base < from then rest else [ps[0]] + rest
  }

  // An aligned block that sticks out of [s, e] would cover an address outside.
  lemma BlockInside(bits: nat, ps: seq<Prefix>, s: int, e: int, p: Prefix)
    requires p in ps && CoversExactly(ps, s, e)
    ensures s <= p.base && p.base + Pow2(p.host) - 1 <= e
  {
    assert InPrefix(p, p.base) && InPrefix(p, p.base + Pow2(p.host) - 1);
    assert Covers(ps, p.base) && Covers(ps, p.base + Pow2(p.host) - 1);
  }

  // In any exact cover, the blocks meeting the greedy first block lie inside it.
  lemma MeetsFirstBlock(bits: nat, ps: seq<Prefix>, s: nat, e: int, p: Prefix)
    requires s <= e && AllValid(bits, ps) && CoversExactly(ps, s, e) && p in ps
    ensures p.base < s + Pow2(FirstBlock(bits, s, e)) ==>
              p.base + Pow2(p.host) <= s + Pow2(FirstBlock(bits, s, e))
  {
    var h := FirstBlock(bits, s, e);
    BlockInside(bits, ps, s, e, p);
    if p.base < s + Pow2(h) {
      if p.host <= h {
        AlignedDown(s, p.host, h);
        AlignedStep(s, h);
        AlignedDown(s + Pow2(h), p.host, h);
        AlignedGap(p.base, s + Pow2(h), p.host);
      } else {
        AlignedDown(p.base, h, p.host);
        if s < p.base {
          AlignedGap(s, p.base, h);
        }
        assert p.base == s;
        WidestIsMaximal(bits, s, e, 0, p.host);
      }
    }
  }

  lemma RestOfCover(bits: nat, ps: seq<Prefix>, s: nat, e: int)
    requires s <= e && AllValid(bits, ps) && CoversExactly(ps, s, e)
    ensures var from := s + Pow2(FirstBlock(bits, s, e));
      |StartingFrom(ps, from)| < |ps| && AllValid(bits, StartingFrom(ps, from))
      && CoversExactly(StartingFrom(ps, from), from, e)
  {
    var from := s + Pow2(FirstBlock(bits, s, e));
    var rest := StartingFrom(ps, from);
    assert Covers(ps, s);
    var i :| 0 <= i < |ps| && InPrefix(ps[i], s);
    assert ps[i].base < from;
    forall a: int ensures Covers(rest, a) <==> from <= a <= e {
      if Covers(rest, a) {
        var j :| 0 <= j < |rest| && InPrefix(rest[j], a);
        assert rest[j] in ps;
        assert Covers(ps, a);
      }
      if from <= a <= e {
        assert Covers(ps, a);
        var j :| 0 <= j < |ps| && InPrefix(ps[j], a);
        MeetsFirstBlock(bits, ps, s, e, ps[j]);
        assert ps[j] in rest;
      }
    }
  }

  // No list of aligned blocks covering exactly [s, e] is shorter.
  lemma {:induction false} DecomposeMinimal(bits: nat, ps: seq<Prefix>, s: nat, e: int)
    requires AllValid(bits, ps) && CoversExactly(ps, s, e)
    ensures |Decompose(bits, s, e)| <= |ps|
    decreases e - s
  {
    if s <= e {
      var from := s + Pow2(FirstBlock(bits, s, e));
      RestOfCover(bits, ps, s, e);
      DecomposeMinimal(bits, StartingFrom(ps, from), from, e);
    }
  }

  // ---- How many blocks a range can need --------------------------------------

  // From an aligned start the blocks strictly shrink: a remainder below 2^k
  // takes at most k of them.
  lemma {:induction false} ShrinkingBlocks(bits: nat, s: nat, e: int, k: nat)
    requires k <= bits && Aligned(s, k) && e - s + 1 < Pow2(k)
    ensures |Decompose(bits, s, e)| <= k
    decreases k
  {
    if s <= e {
      var h := FirstBlock(bits, s, e);
      if h >= k {
        Pow2Mono(k, h);
        assert false;
      }
      AlignedDown(s, h + 1, k);
      if e - s + 1 >= Pow2(h + 1) {
        assert Fits(bits, s, e, h + 1);
        WidestIsMaximal(bits, s, e, 0, h + 1);
        assert false;
      }
      AlignedStep(s, h);
      ShrinkingBlocks(bits, s + Pow2(h), e, h);
    }
  }

  // Alignment-limited blocks strictly grow, so an unaligned start adds at most
  // one block per remaining bit.
  lemma {:induction false} GrowingBlocks(bits: nat, s: nat, e: int, j: nat)
    requires bits >= 2 && 0 < s <= Pow2(bits) && e < Pow2(bits)
    requires j < bits && Aligned(s, j)
    ensures |Decompose(bits, s, e)| <= (bits - 1 - j) + (bits - 1)
    decreases bits - j
  {
    if s <= e {
      if j == bits - 1 {
        TopHalf(bits, s, e);
      } else if Aligned(s, j + 1) {
        GrowingBlocks(bits, s, e, j + 1);
      } else if e - s + 1 < Pow2(j) {
        ShrinkingBlocks(bits, s, e, j);
      } else {
        assert Fits(bits, s, e, j);
        var h := FirstBlock(bits, s, e);
        WidestIsMaximal(bits, s, e, 0, j);
        if h > j {
          AlignedDown(s, j + 1, h);
          assert false;
        }
        AlignedCarry(s, j);
        GrowingBlocks(bits, s + Pow2(j), e, j + 1);
      }
    }
  }

  lemma TopHalf(bits: nat, s: nat, e: int)
    requires bits >= 2 && 0 < s <= e < Pow2(bits) && Aligned(s, bits - 1)
    ensures |Decompose(bits, s, e)| <= bits - 1
  {
    var half := Pow2(bits - 1);
    AlignedGap(0, s, bits - 1);
    if e - s + 1 < half {
      ShrinkingBlocks(bits, s, e, bits - 1);
    } else {
      assert Fits(bits, s, e, bits - 1);
      var h := FirstBlock(bits, s, e);
      WidestIsMaximal(bits, s, e, 0, bits - 1);
      if h > bits - 1 {
        assert false;
      }
      assert s + Pow2(h) > e;
      assert Decompose(bits, s + Pow2(h), e) == [];
    }
  }

  // A range never takes more than 2 * bits - 2 prefixes.
  lemma DecomposeBound(bits: nat, s: nat, e: int)
    requires bits >= 2 && e < Pow2(bits)
    ensures |Decompose(bits, s, e)| <= 2 * bits - 2
  {
    if s > e {
    } else if s > 0 {
      GrowingBlocks(bits, s, e, 0);
    } else if e + 1 < Pow2(bits) {
      ShrinkingBlocks(bits, 0, e, bits);
    } else {
      assert Fits(bits, 0, e, bits);
      WidestIsMaximal(bits, 0, e, 0, bits);
      assert Decompose(bits, Pow2(bits), e) == [];
    }
  }

  lemma {:induction false} ShrinkingBlocksTight(bits: nat, s: nat, e: int, k: nat)
    requires k <= bits && Aligned(s, k) && e - s + 1 == Pow2(k) - 1
    ensures |Decompose(bits, s, e)| == k
    decreases k
  {
    if k > 0 {
      AlignedDown(s, k - 1, k);
      FirstBlockIs(bits, s, e, k - 1);
      AlignedStep(s, k - 1);
      ShrinkingBlocksTight(bits, s + Pow2(k - 1), e, k - 1);
    }
  }

  // The first block is the one that fits while the next size does not.
  lemma FirstBlockIs(bits: nat, s: nat, e: int, k: nat)
    requires Fits(bits, s, e, k) && !Fits(bits, s, e, k + 1)
    ensures s <= e && FirstBlock(bits, s, e) == k
  {
    WidestIsMaximal(bits, s, e, 0, k);
    var h := FirstBlock(bits, s, e);
    if h > k {
      AlignedDown(s, k + 1, h);
      Pow2Mono(k + 1, h);
    }
  }

  lemma PowerAlignment(j: nat)
    ensures Aligned(Pow2(j), j) && !Aligned(Pow2(j), j + 1)
  {
    ModMultiple(1, Pow2(j));
    DivModUnique(Pow2(j), Pow2(j + 1), 0, Pow2(j));
  }

  lemma {:induction false} GrowingBlocksTight(bits: nat, j: nat)
    requires bits >= 2 && j < bits
    ensures |Decompose(bits, Pow2(j), Pow2(bits) - 2)| == (bits - 1 - j) + (bits - 1)
    decreases bits - j
  {
    var e := Pow2(bits) - 2;
    PowerAlignment(j);
    if j == bits - 1 {
      ShrinkingBlocksTight(bits, Pow2(j), e, j);
    } else {
      Pow2Mono(j + 2, bits);
      FirstBlockIs(bits, Pow2(j), e, j);
      GrowingBlocksTight(bits, j + 1);
    }
  }

  // The bound is attained: everything but the two outermost addresses.
  lemma DecomposeBoundIsTight(bits: nat)
    requires bits >= 2
    ensures |Decompose(bits, 1, Pow2(bits) - 2)| == 2 * bits - 2
  {
    GrowingBlocksTight(bits, 0);
  }
}
