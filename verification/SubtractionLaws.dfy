// What `subtractCidrs` promises, stated on the texts that go in and come out:
// exact coverage, fewest prefixes, a canonical list, and honest shares.
module SubtractionLaws {
  import opened Powers
  import opened Prefixes
  import opened Ranges
  import opened AddressText
  import opened AddressRoundTrip
  import opened AddressReading
  import opened CidrSubtraction

  // Some text of the list is a prefix of family `f` that contains `a`.
  ghost predicate TextCovers(texts: seq<string>, f: Family, a: int) {
    exists i :: 0 <= i < |texts| && TextHas(texts[i], f, a)
  }

  predicate TextHas(text: string, f: Family, a: int) {
    ParsesTo(text, f) && ParseCidr(text).value.range.start <= a <= ParseCidr(text).value.range.end
  }

  // The address agrees with the written one in the leading bits.
  predicate Agrees(f: Family, value: nat, prefix: nat, a: int)
    requires prefix <= Bits(f)
  {
    a / Pow2(Bits(f) - prefix) == value / Pow2(Bits(f) - prefix)
  }

  lemma HasIffAgrees(text: string, f: Family, a: int, value: nat, prefix: nat)
    requires Names(text, f, value, prefix)
    ensures TextHas(text, f, a) <==> Agrees(f, value, prefix, a)
  {
    ReadsBlock(text, f, value, prefix);
  }

  // On the text itself: it names an address and a length, and `a` agrees with
  // that address in as many leading bits.
  lemma TextHasIff(text: string, f: Family, a: int)
    ensures TextHas(text, f, a) <==>
      exists value: nat, prefix: nat :: Names(text, f, value, prefix) && Agrees(f, value, prefix, a)
  {
    ParsesIff(text, f);
    forall value: nat, prefix: nat | Names(text, f, value, prefix)
      ensures TextHas(text, f, a) <==> Agrees(f, value, prefix, a)
    {
      HasIffAgrees(text, f, a, value, prefix);
    }
  }

  lemma CoversHead(texts: seq<string>, f: Family, a: int)
    requires texts != []
    ensures TextCovers(texts, f, a) <==> TextHas(texts[0], f, a) || TextCovers(texts[1..], f, a)
  {
    assert texts == [texts[0]] + texts[1..];
    CoversAppend([texts[0]], texts[1..], f, a);
    assert TextCovers([texts[0]], f, a) <==> TextHas(texts[0], f, a) by {
      assert [texts[0]][0] == texts[0];
    }
  }

  lemma ParsedHead(texts: seq<string>, f: Family, a: int)
    requires texts != []
    ensures In(ParsedRanges(texts, f), a) <==> TextHas(texts[0], f, a) || In(ParsedRanges(texts[1..], f), a)
  {
    if ParsesTo(texts[0], f) {
      InCons(ParsedRanges(texts, f), a);
      assert ParsedRanges(texts, f)[1..] == ParsedRanges(texts[1..], f);
    }
  }

  lemma {:induction false} CoveredIsParsed(texts: seq<string>, f: Family, a: int)
    ensures TextCovers(texts, f, a) <==> In(ParsedRanges(texts, f), a)
    decreases |texts|
  {
    if texts != [] {
      CoveredIsParsed(texts[1..], f, a);
      CoversHead(texts, f, a);
      ParsedHead(texts, f, a);
    }
  }

  lemma CoversAppend(xs: seq<string>, ys: seq<string>, f: Family, a: int)
    ensures TextCovers(xs + ys, f, a) <==> TextCovers(xs, f, a) || TextCovers(ys, f, a)
  {
    var all := xs + ys;
    if TextCovers(xs, f, a) {
      var i :| 0 <= i < |xs| && TextHas(xs[i], f, a);
      assert TextHas(all[i], f, a);
    }
    if TextCovers(ys, f, a) {
      var i :| 0 <= i < |ys| && TextHas(ys[i], f, a);
      assert TextHas(all[|xs| + i], f, a);
    }
    if TextCovers(all, f, a) {
      var i :| 0 <= i < |all| && TextHas(all[i], f, a);
      if i < |xs| {
        assert TextHas(xs[i], f, a);
      } else {
        assert TextHas(ys[i - |xs|], f, a);
      }
    }
  }

  lemma SameTextsCover(xs: seq<string>, ys: seq<string>, f: Family, a: int)
    requires forall t :: t in xs ==> t in ys
    ensures TextCovers(xs, f, a) ==> TextCovers(ys, f, a)
  {
    if TextCovers(xs, f, a) {
      var i :| 0 <= i < |xs| && TextHas(xs[i], f, a);
      assert xs[i] in ys;
    }
  }

  lemma {:induction false} UnparsedCoversNothing(texts: seq<string>)
    ensures forall t :: t in Unparsed(texts) ==> ParseCidr(t).None?
  {
    if texts != [] {
      UnparsedCoversNothing(texts[1..]);
    }
  }

  lemma PrintedCover(f: Family, ps: seq<Prefix>, g: Family, a: int)
    requires AllValid(Bits(f), ps)
    ensures TextCovers(Texts(f, ps), g, a) <==> f == g && Covers(ps, a)
  {
    var texts := Texts(f, ps);
    forall i | 0 <= i < |ps| ensures TextHas(texts[i], g, a) <==> f == g && InPrefix(ps[i], a) {
      CidrRoundTrip(f, ps[i]);
    }
  }

  // ---- Exactness -----------------------------------------------------------------

  // A printed result covers what its prefixes cover.
  lemma PrintedListCovers(xs: seq<string>, p4: seq<Prefix>, p6: seq<Prefix>, f: Family, a: int)
    requires AllValid(Bits(V4), p4) && AllValid(Bits(V6), p6) && !TextCovers(xs, f, a)
    ensures TextCovers(Dedupe(xs + Texts(V4, p4) + Texts(V6, p6)), f, a) <==>
      Covers(if f.V4? then p4 else p6, a)
  {
    var first := xs + Texts(V4, p4);
    var all := first + Texts(V6, p6);
    SameTextsCover(Dedupe(all), all, f, a);
    SameTextsCover(all, Dedupe(all), f, a);
    CoversAppend(first, Texts(V6, p6), f, a);
    CoversAppend(xs, Texts(V4, p4), f, a);
    PrintedCover(V4, p4, f, a);
    PrintedCover(V6, p6, f, a);
  }

  lemma UnparsedUncovered(texts: seq<string>, f: Family, a: int)
    ensures !TextCovers(Unparsed(texts), f, a)
  {
    var odd := Unparsed(texts);
    UnparsedCoversNothing(texts);
    forall i | 0 <= i < |odd| ensures !TextHas(odd[i], f, a) {
      assert odd[i] in odd;
    }
  }

  // The addresses covered by the result are exactly the included ones that no
  // exclusion covers, in each family.
  lemma SubtractExact(including: seq<string>, excluding: seq<string>, f: Family, a: int)
    ensures TextCovers(Subtract(including, excluding).cidrs, f, a) <==>
              TextCovers(including, f, a) && !TextCovers(excluding, f, a)
  {
    var p4, p6 := ResultPrefixes(including, excluding, V4), ResultPrefixes(including, excluding, V6);
    UnparsedUncovered(including, f, a);
    PrintedListCovers(Unparsed(including), p4, p6, f, a);
    ResultCovers(including, excluding, f, a);
  }

  lemma ResultCovers(including: seq<string>, excluding: seq<string>, f: Family, a: int)
    ensures Covers(ResultPrefixes(including, excluding, f), a) <==>
              TextCovers(including, f, a) && !TextCovers(excluding, f, a)
  {
    var kept := Kept(including, excluding, f);
    KeptCorrect(including, excluding, f);
    MergeCorrect(kept);
    SameAddressesWithin(kept, Merge(kept), Pow2(Bits(f)));
    DecomposeAllExact(Bits(f), Merge(kept));
    CoveredIsParsed(including, f, a);
    CoveredIsParsed(excluding, f, a);
  }

  // ---- Fewest prefixes -------------------------------------------------------------

  function CountParsing(texts: seq<string>, f: Family): nat {
    if texts == [] then 0 else (if ParsesTo(texts[0], f) then 1 else 0) + CountParsing(texts[1..], f)
  }

  // The prefixes a list of texts spells out in one family.
  lemma SpelledPrefix(text: string, f: Family) returns (p: Prefix)
    requires ParsesTo(text, f)
    ensures ValidPrefix(Bits(f), p) && forall a: int :: InPrefix(p, a) <==> TextHas(text, f, a)
  {
    ParsedIsPrefix(text);
    p :| ValidPrefix(Bits(f), p) && ParseCidr(text).value.range == Range(p.base, p.base + Pow2(p.host) - 1);
  }

  lemma {:induction false} SpelledPrefixes(texts: seq<string>, f: Family) returns (ps: seq<Prefix>)
    ensures |ps| == CountParsing(texts, f) && AllValid(Bits(f), ps)
    ensures forall a: int :: Covers(ps, a) <==> TextCovers(texts, f, a)
    decreases |texts|
  {
    if texts == [] {
      ps := [];
    } else {
      var rest := SpelledPrefixes(texts[1..], f);
      ps := rest;
      if ParsesTo(texts[0], f) {
        var p := SpelledPrefix(texts[0], f);
        ps := [p] + rest;
        forall a: int ensures Covers(ps, a) <==> InPrefix(p, a) || Covers(rest, a) {
          CoversCons(p, rest, a);
        }
      }
      forall a: int ensures Covers(ps, a) <==> TextCovers(texts, f, a) {
        CoversHead(texts, f, a);
      }
    }
  }

  // Any list of prefix texts covering the same addresses has, in each family,
  // at least as many entries as the result.
  lemma SubtractMinimal(including: seq<string>, excluding: seq<string>, other: seq<string>, f: Family)
    requires forall a: int :: TextCovers(other, f, a) <==>
                                TextCovers(Subtract(including, excluding).cidrs, f, a)
    ensures |ResultPrefixes(including, excluding, f)| <= CountParsing(other, f)
    ensures CountParsing(Subtract(including, excluding).cidrs, f) == |ResultPrefixes(including, excluding, f)|
  {
    var kept := Kept(including, excluding, f);
    var ps := SpelledPrefixes(other, f);
    KeptCorrect(including, excluding, f);
    MergeCorrect(kept);
    forall a: int ensures Covers(ps, a) <==> In(Merge(kept), a) {
      SubtractExact(including, excluding, f, a);
      CoveredIsParsed(including, f, a);
      CoveredIsParsed(excluding, f, a);
    }
    DecomposeAllMinimal(Bits(f), ps, Merge(kept));
    ResultCount(including, excluding, f);
  }

  // ---- The shape of the result -------------------------------------------------------

  lemma {:induction false} DedupeSplits(xs: seq<string>, ys: seq<string>)
    requires forall i, j :: 0 <= i < j < |ys| ==> ys[i] != ys[j]
    requires forall i :: 0 <= i < |ys| ==> ys[i] !in xs
    ensures Dedupe(xs + ys) == Dedupe(xs) + ys
    decreases |ys|
  {
    if ys == [] {
      assert xs + ys == xs;
    } else {
      var init, last := ys[..|ys| - 1], ys[|ys| - 1];
      var all := xs + ys;
      assert all[..|all| - 1] == xs + init && all[|all| - 1] == last;
      DedupeSplits(xs, init);
      assert last !in xs + init;
      assert init + [last] == ys;
    }
  }

  lemma PrintedAreDistinct(f: Family, ps: seq<Prefix>, i: nat, j: nat)
    requires AllValid(Bits(f), ps) && InAddressOrder(ps) && i < j < |ps|
    ensures Texts(f, ps)[i] != Texts(f, ps)[j]
  {
    CidrRoundTrip(f, ps[i]);
    CidrRoundTrip(f, ps[j]);
  }

  lemma ResultOrdered(including: seq<string>, excluding: seq<string>, f: Family)
    ensures InAddressOrder(ResultPrefixes(including, excluding, f))
  {
    KeptCorrect(including, excluding, f);
    MergeCorrect(Kept(including, excluding, f));
    DecomposeAllOrdered(Bits(f), Merge(Kept(including, excluding, f)));
  }

  // The texts of one family, in address order.
  function PrintedResult(including: seq<string>, excluding: seq<string>, f: Family): seq<string> {
    Texts(f, ResultPrefixes(including, excluding, f))
  }

  // Unparseable entries first and once each, then the IPv4 prefixes, then the
  // IPv6 ones, each family in address order and free of duplicates.
  lemma ResultShape(including: seq<string>, excluding: seq<string>)
    ensures Subtract(including, excluding).cidrs ==
              Dedupe(Unparsed(including)) + PrintedResult(including, excluding, V4)
              + PrintedResult(including, excluding, V6)
    ensures InAddressOrder(ResultPrefixes(including, excluding, V4))
    ensures InAddressOrder(ResultPrefixes(including, excluding, V6))
  {
    var p4, p6 := ResultPrefixes(including, excluding, V4), ResultPrefixes(including, excluding, V6);
    var t4, t6 := Texts(V4, p4), Texts(V6, p6);
    var xs := Unparsed(including);
    ResultOrdered(including, excluding, V4);
    ResultOrdered(including, excluding, V6);
    UnparsedCoversNothing(including);
    forall i | 0 <= i < |p4| ensures ParsesTo(t4[i], V4) {
      CidrRoundTrip(V4, p4[i]);
    }
    forall i | 0 <= i < |p6| ensures ParsesTo(t6[i], V6) {
      CidrRoundTrip(V6, p6[i]);
    }
    forall i, j | 0 <= i < j < |p4| ensures t4[i] != t4[j] {
      PrintedAreDistinct(V4, p4, i, j);
    }
    forall i, j | 0 <= i < j < |p6| ensures t6[i] != t6[j] {
      PrintedAreDistinct(V6, p6, i, j);
    }
    forall i | 0 <= i < |t6| ensures t6[i] !in xs + t4 {
      assert ParsesTo(t6[i], V6);
    }
    DedupeSplits(xs, t4);
    DedupeSplits(xs + t4, t6);
  }

  lemma {:induction false} CountAppend(xs: seq<string>, ys: seq<string>, f: Family)
    ensures CountParsing(xs + ys, f) == CountParsing(xs, f) + CountParsing(ys, f)
    decreases |xs|
  {
    if xs == [] {
      assert xs + ys == ys;
    } else {
      assert (xs + ys)[1..] == xs[1..] + ys;
      CountAppend(xs[1..], ys, f);
    }
  }

  lemma {:induction false} CountAllOrNone(texts: seq<string>, f: Family)
    ensures (forall i :: 0 <= i < |texts| ==> ParsesTo(texts[i], f)) ==> CountParsing(texts, f) == |texts|
    ensures (forall i :: 0 <= i < |texts| ==> !ParsesTo(texts[i], f)) ==> CountParsing(texts, f) == 0
    decreases |texts|
  {
    if texts != [] {
      CountAllOrNone(texts[1..], f);
    }
  }

  lemma PrintedParse(f: Family, ps: seq<Prefix>, g: Family)
    requires AllValid(Bits(f), ps)
    ensures CountParsing(Texts(f, ps), g) == if f == g then |ps| else 0
  {
    forall i | 0 <= i < |ps| ensures ParsesTo(Texts(f, ps)[i], f) {
      CidrRoundTrip(f, ps[i]);
    }
    CountAllOrNone(Texts(f, ps), g);
  }

  lemma CountOfThree(xs: seq<string>, ys: seq<string>, zs: seq<string>, f: Family)
    ensures CountParsing(xs + ys + zs, f) == CountParsing(xs, f) + CountParsing(ys, f) + CountParsing(zs, f)
  {
    CountAppend(xs + ys, zs, f);
    CountAppend(xs, ys, f);
  }

  lemma UnparsedCount(including: seq<string>, f: Family)
    ensures CountParsing(Dedupe(Unparsed(including)), f) == 0
  {
    UnparsedCoversNothing(including);
    CountAllOrNone(Dedupe(Unparsed(including)), f);
  }

  lemma ResultCount(including: seq<string>, excluding: seq<string>, f: Family)
    ensures CountParsing(Subtract(including, excluding).cidrs, f) == |ResultPrefixes(including, excluding, f)|
  {
    var p4, p6 := ResultPrefixes(including, excluding, V4), ResultPrefixes(including, excluding, V6);
    ResultShape(including, excluding);
    CountOfThree(Dedupe(Unparsed(including)), Texts(V4, p4), Texts(V6, p6), f);
    UnparsedCount(including, f);
    PrintedParse(V4, p4, f);
    PrintedParse(V6, p6, f);
  }

  // ---- Canonical form ---------------------------------------------------------------

  ghost predicate SameDifference(i1: seq<string>, e1: seq<string>, i2: seq<string>, e2: seq<string>, f: Family) {
    forall a: int :: (TextCovers(i1, f, a) && !TextCovers(e1, f, a)) <==>
                     (TextCovers(i2, f, a) && !TextCovers(e2, f, a))
  }

  // The prefixes depend only on which addresses are left, not on how either
  // list was ordered, overlapped or split.
  lemma SubtractCanonical(i1: seq<string>, e1: seq<string>, i2: seq<string>, e2: seq<string>, f: Family)
    requires SameDifference(i1, e1, i2, e2, f)
    ensures PrintedResult(i1, e1, f) == PrintedResult(i2, e2, f)
  {
    KeptCorrect(i1, e1, f);
    KeptCorrect(i2, e2, f);
    MergeCorrect(Kept(i1, e1, f));
    MergeCorrect(Kept(i2, e2, f));
    forall a: int ensures In(Merge(Kept(i1, e1, f)), a) <==> In(Merge(Kept(i2, e2, f)), a) {
      CoveredIsParsed(i1, f, a);
      CoveredIsParsed(e1, f, a);
      CoveredIsParsed(i2, f, a);
      CoveredIsParsed(e2, f, a);
    }
    CanonicalUnique(Merge(Kept(i1, e1, f)), Merge(Kept(i2, e2, f)));
  }

  lemma UnparsedHead(xs: seq<string>, ys: seq<string>) returns (first: seq<string>)
    requires xs != []
    ensures Unparsed(xs) == first + Unparsed(xs[1..]) && Unparsed(xs + ys) == first + Unparsed(xs[1..] + ys)
  {
    first := if ParseCidr(xs[0]).None? then [xs[0]] else [];
    assert (xs + ys)[1..] == xs[1..] + ys;
  }

  lemma {:induction false} UnparsedAppend(xs: seq<string>, ys: seq<string>)
    ensures Unparsed(xs + ys) == Unparsed(xs) + Unparsed(ys)
    decreases |xs|
  {
    if xs == [] {
      assert xs + ys == ys;
    } else {
      var first := UnparsedHead(xs, ys);
      UnparsedAppend(xs[1..], ys);
      Assoc(first, Unparsed(xs[1..]), Unparsed(ys));
    }
  }

  lemma {:induction false} UnparsedAllOrNone(texts: seq<string>)
    ensures (forall i :: 0 <= i < |texts| ==> ParseCidr(texts[i]).None?) ==> Unparsed(texts) == texts
    ensures (forall i :: 0 <= i < |texts| ==> ParseCidr(texts[i]).Some?) ==> Unparsed(texts) == []
    decreases |texts|
  {
    if texts != [] {
      UnparsedAllOrNone(texts[1..]);
      assert texts == [texts[0]] + texts[1..];
    }
  }

  lemma {:induction false} DedupeDistinct(texts: seq<string>)
    ensures forall i, j :: 0 <= i < j < |Dedupe(texts)| ==> Dedupe(texts)[i] != Dedupe(texts)[j]
    decreases |texts|
  {
    if texts != [] {
      var init := texts[..|texts| - 1];
      DedupeDistinct(init);
      assert forall i :: 0 <= i < |Dedupe(init)| ==> Dedupe(init)[i] in init;
    }
  }

  lemma DedupeTwice(texts: seq<string>)
    ensures Dedupe(Dedupe(texts)) == Dedupe(texts)
  {
    DedupeDistinct(texts);
    DedupeSplits([], Dedupe(texts));
    assert [] + Dedupe(texts) == Dedupe(texts);
  }

  // Feeding the result back in changes nothing.
  lemma SubtractIdempotent(including: seq<string>, excluding: seq<string>)
    ensures Subtract(Subtract(including, excluding).cidrs, []).cidrs == Subtract(including, excluding).cidrs
  {
    var out := Subtract(including, excluding).cidrs;
    forall f: Family ensures PrintedResult(out, [], f) == PrintedResult(including, excluding, f) {
      forall a: int ensures TextCovers(out, f, a) <==>
                              TextCovers(including, f, a) && !TextCovers(excluding, f, a) {
        SubtractExact(including, excluding, f, a);
      }
      SubtractCanonical(out, [], including, excluding, f);
    }
    ResultShape(including, excluding);
    ResultShape(out, []);
    ResultUnparsed(including, excluding);
    DedupeTwice(Unparsed(including));
  }

  lemma PrintedIsParsed(f: Family, ps: seq<Prefix>)
    requires AllValid(Bits(f), ps)
    ensures Unparsed(Texts(f, ps)) == []
  {
    forall i | 0 <= i < |ps| ensures ParseCidr(Texts(f, ps)[i]).Some? {
      CidrRoundTrip(f, ps[i]);
    }
    UnparsedAllOrNone(Texts(f, ps));
  }

  lemma DedupedUnparsed(texts: seq<string>)
    ensures Unparsed(Dedupe(Unparsed(texts))) == Dedupe(Unparsed(texts))
  {
    UnparsedCoversNothing(texts);
    UnparsedAllOrNone(Dedupe(Unparsed(texts)));
  }

  lemma ResultUnparsed(including: seq<string>, excluding: seq<string>)
    ensures Unparsed(Subtract(including, excluding).cidrs) == Dedupe(Unparsed(including))
  {
    var p4, p6 := ResultPrefixes(including, excluding, V4), ResultPrefixes(including, excluding, V6);
    var xs := Dedupe(Unparsed(including));
    ResultShape(including, excluding);
    UnparsedAppend(xs + Texts(V4, p4), Texts(V6, p6));
    UnparsedAppend(xs, Texts(V4, p4));
    DedupedUnparsed(including);
    PrintedIsParsed(V4, p4);
    PrintedIsParsed(V6, p6);
  }

  // ---- Shares -------------------------------------------------------------------------

  ghost function Covered(texts: seq<string>, f: Family): set<int> {
    set a: int | 0 <= a < Pow2(Bits(f)) && TextCovers(texts, f, a)
  }

  lemma IncludedIsCounted(including: seq<string>, f: Family)
    ensures SizeOf(ParsedRanges(including, f)) == |Covered(including, f)|
  {
    var limit, included := Pow2(Bits(f)), ParsedRanges(including, f);
    ParsedWithin(including, f);
    SizeCounts(included, limit);
    forall a: int ensures a in Covered(including, f) <==> a in Addresses(included, limit) {
      CoveredIsParsed(including, f, a);
    }
    assert Covered(including, f) == Addresses(included, limit);
  }

  lemma KeptIsCounted(including: seq<string>, excluding: seq<string>, f: Family)
    ensures WellFormed(Kept(including, excluding, f))
    ensures SizeOf(Kept(including, excluding, f)) == |Covered(Subtract(including, excluding).cidrs, f)|
  {
    var limit, kept := Pow2(Bits(f)), Kept(including, excluding, f);
    var out := Covered(Subtract(including, excluding).cidrs, f);
    KeptCorrect(including, excluding, f);
    SizeCounts(kept, limit);
    forall a: int ensures a in out <==> a in Addresses(kept, limit) {
      SubtractExact(including, excluding, f, a);
      CoveredIsParsed(including, f, a);
      CoveredIsParsed(excluding, f, a);
    }
    assert out == Addresses(kept, limit);
  }

  lemma CoveredDifference(all: seq<string>, gone: seq<string>, out: seq<string>, f: Family)
    requires forall a: int :: TextCovers(out, f, a) <==> TextCovers(all, f, a) && !TextCovers(gone, f, a)
    ensures |Covered(all, f)| == |Covered(out, f)| + |Covered(all, f) * Covered(gone, f)|
  {
    assert Covered(out, f) == Covered(all, f) - Covered(gone, f);
    CardinalityOfDifference(Covered(all, f), Covered(gone, f), Covered(out, f));
  }

  lemma CardinalityOfDifference(all: set<int>, gone: set<int>, out: set<int>)
    requires out == all - gone
    ensures |all| == |out| + |all * gone|
  {
    assert all == out + all * gone && out !! all * gone;
  }

  lemma KeptAndRemoved(including: seq<string>, excluding: seq<string>, f: Family)
    ensures |Covered(including, f)| == |Covered(Subtract(including, excluding).cidrs, f)|
                                       + |Covered(including, f) * Covered(excluding, f)|
  {
    var out := Subtract(including, excluding).cidrs;
    forall a: int ensures TextCovers(out, f, a) <==> TextCovers(including, f, a) && !TextCovers(excluding, f, a) {
      SubtractExact(including, excluding, f, a);
    }
    CoveredDifference(including, excluding, out, f);
  }

  // Every included address is either kept or excluded, and the share is the
  // excluded part of the included addresses, floored to four decimals.
  lemma SharesAreExact(including: seq<string>, excluding: seq<string>, f: Family)
    ensures var all := |Covered(including, f)|;
      var removed := |Covered(including, f) * Covered(excluding, f)|;
      var kept := |Covered(Subtract(including, excluding).cidrs, f)|;
      var share := Subtract(including, excluding).removedShare.Get(f);
      && all == kept + removed
      && (all == 0 ==> share == 0)
      && (all > 0 ==> share * all <= removed * 10_000 < (share + 1) * all && 0 <= share <= 10_000)
  {
    IncludedIsCounted(including, f);
    KeptIsCounted(including, excluding, f);
    KeptAndRemoved(including, excluding, f);
    var all := |Covered(including, f)|;
    if all > 0 {
      FloorShare(|Covered(including, f) * Covered(excluding, f)|, all);
    }
  }

  lemma FloorShare(part: nat, total: nat)
    requires part <= total && total > 0
    ensures var s := part * 10_000 / total;
      s * total <= part * 10_000 < (s + 1) * total && 0 <= s <= 10_000
  {
    var s := part * 10_000 / total;
    var r := part * 10_000 % total;
    assert part * 10_000 == s * total + r;
    if s > 10_000 {
      assert (s - 10_000) * total == s * total - 10_000 * total;
      MulGe(s - 10_000, total);
    }
    if s < 0 {
      assert (-s) * total == -(s * total);
      MulGe(-s, total);
    }
  }

  // ---- Touched ---------------------------------------------------------------------------

  // The prefix named by `text` loses at least one address to the exclusion.
  ghost predicate LosesAddress(text: string, excluding: seq<string>) {
    exists f, a: int :: TextHas(text, f, a) && TextCovers(excluding, f, a)
  }

  ghost function CountLosing(texts: seq<string>, excluding: seq<string>): nat {
    if texts == [] then 0
    else (if LosesAddress(texts[0], excluding) then 1 else 0) + CountLosing(texts[1..], excluding)
  }

  lemma TouchesMeansLoses(text: string, excluding: seq<string>)
    ensures Touches(text, PerFamily(Blocks(excluding, V4), Blocks(excluding, V6))) <==>
              LosesAddress(text, excluding)
  {
    if ParseCidr(text).Some? {
      var f, r := ParseCidr(text).value.family, ParseCidr(text).value.range;
      var blocks := Blocks(excluding, f);
      MergeCorrect(ParsedRanges(excluding, f));
      ParsedIsPrefix(text);
      if Overlaps(r, blocks) {
        var i :| 0 <= i < |blocks| && blocks[i].start <= r.end && r.start <= blocks[i].end;
        var a := if r.start <= blocks[i].start then blocks[i].start else r.start;
        assert In(blocks, a);
        CoveredIsParsed(excluding, f, a);
        assert TextHas(text, f, a);
      }
      if LosesAddress(text, excluding) {
        var g, a: int :| TextHas(text, g, a) && TextCovers(excluding, g, a);
        CoveredIsParsed(excluding, f, a);
        assert In(blocks, a);
      }
    }
  }

  // `touched` counts the included entries that lose some or all of their addresses.
  lemma {:induction false} TouchedCountsLosses(texts: seq<string>, excluding: seq<string>)
    ensures CountTouched(texts, PerFamily(Blocks(excluding, V4), Blocks(excluding, V6)))
              == CountLosing(texts, excluding)
    decreases |texts|
  {
    if texts != [] {
      TouchesMeansLoses(texts[0], excluding);
      TouchedCountsLosses(texts[1..], excluding);
    }
  }
}
