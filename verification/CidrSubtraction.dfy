// `subtractCidrs`: take the excluded prefixes away from the included ones and
// print what is left as the fewest prefixes, both families side by side.
module CidrSubtraction {
  import opened Powers
  import opened Numerals
  import opened Prefixes
  import opened Ranges
  import opened AddressText
  import opened AddressRoundTrip

  // One value per family.
  datatype PerFamily<T> = PerFamily(v4: T, v6: T) {
    function Get(f: Family): T {
      if f.V4? then v4 else v6
    }

    function With(f: Family, x: T): PerFamily<T> {
      if f.V4? then this.(v4 := x) else this.(v6 := x)
    }
  }

  // `removedShare` is kept in ten-thousandths.
  datatype CidrDifference = CidrDifference(cidrs: seq<string>, touched: nat, removedShare: PerFamily<int>)

  // ---- Specification ---------------------------------------------------------------

  predicate ParsesTo(text: string, f: Family) {
    ParseCidr(text).Some? && ParseCidr(text).value.family == f
  }

  lemma ParsedIsPrefix(text: string)
    requires ParseCidr(text).Some?
    ensures var r := ParseCidr(text).value;
      exists p :: ValidPrefix(Bits(r.family), p) && r.range == Range(p.base, p.base + Pow2(p.host) - 1)
  {
    var r := ParseCidr(text).value;
    var parts := Split(text, '/');
    var prefix := NumberOf(if |parts| > 1 then parts[1] else "").value;
    var value := if r.family.V4? then ParseV4(parts[0]) else ParseV6(parts[0]);
    var bits := Bits(r.family);
    ParsedValueInRange(parts[0], r.family);
    NetworkIsPrefix(bits, value, bits - prefix);
    assert ValidPrefix(bits, Prefix(NetworkStart(value, Pow2(bits - prefix)), bits - prefix));
  }

  lemma ParsedValueInRange(address: string, f: Family)
    requires if f.V4? then IsV4(address) else IsV6(address)
    ensures (if f.V4? then ParseV4(address) else ParseV6(address)) < Pow2(Bits(f))
  {
    WidthInDigits();
    PowerValues();
    if f.V4? {
      FromDigitsBound(256, Values(10, Split(address, '.')));
    } else {
      var groups := GroupsOf(address);
      forall i | 0 <= i < 8 ensures Values(16, groups)[i] < 65536 {
        assert HexGroup(groups[i]);
        ParseBound(16, groups[i], 4);
      }
      FromDigitsBound(65536, Values(16, groups));
    }
  }

  lemma NetworkIsPrefix(bits: nat, value: nat, host: nat)
    requires host <= bits && value < Pow2(bits)
    ensures ValidPrefix(bits, Prefix(NetworkStart(value, Pow2(host)), host))
  {
    var size := Pow2(host);
    var start := NetworkStart(value, size);
    ModMultiple(value / size, size);
    assert start <= value;
    assert Aligned(start, host);
    ModMultiple(1, Pow2(bits));
    AlignedDown(Pow2(bits), host, bits);
    AlignedGap(start, Pow2(bits), host);
  }

  function ParsedRanges(texts: seq<string>, f: Family): (rs: seq<Range>)
    ensures WellFormed(rs)
  {
    if texts == [] then []
    else
      var rest := ParsedRanges(texts[1..], f);
      if ParsesTo(texts[0], f) then
        (ParsedIsPrefix(texts[0]);
        [ParseCidr(texts[0]).value.range] + rest)
      else rest
  }

  function Unparsed(texts: seq<string>): seq<string> {
    if texts == [] then []
    else (if ParseCidr(texts[0]).None? then [texts[0]] else []) + Unparsed(texts[1..])
  }

  // What is left of each range, in order.
  function KeptRanges(ranges: seq<Range>, blocks: seq<Range>): seq<Range> {
    if ranges == [] then []
    else Carve(ranges[0].start, ranges[0].end, blocks) + KeptRanges(ranges[1..], blocks)
  }

  predicate Overlaps(r: Range, blocks: seq<Range>) {
    exists i :: 0 <= i < |blocks| && blocks[i].start <= r.end && r.start <= blocks[i].end
  }

  predicate Touches(text: string, blocks: PerFamily<seq<Range>>) {
    var parsed := ParseCidr(text);
    parsed.Some? && Overlaps(parsed.value.range, blocks.Get(parsed.value.family))
  }

  function CountTouched(texts: seq<string>, blocks: PerFamily<seq<Range>>): nat {
    if texts == [] then 0
    else
      (if Touches(texts[0], blocks) then 1 else 0) + CountTouched(texts[1..], blocks)
  }

  function Blocks(excluding: seq<string>, f: Family): seq<Range> {
    Merge(ParsedRanges(excluding, f))
  }

  function Kept(including: seq<string>, excluding: seq<string>, f: Family): seq<Range> {
    KeptRanges(ParsedRanges(including, f), Blocks(excluding, f))
  }

  function Share(included: seq<Range>, kept: seq<Range>): int
    requires WellFormed(included) && WellFormed(kept)
  {
    var total := SizeOf(included);
    if total == 0 then 0 else (total - SizeOf(kept)) * 10_000 / total
  }

  function Texts(f: Family, ps: seq<Prefix>): (texts: seq<string>)
    requires AllValid(Bits(f), ps)
    ensures |texts| == |ps|
    ensures forall i :: 0 <= i < |ps| ==> texts[i] == FormatCidr(f, ps[i])
  {
    seq(|ps|, i requires 0 <= i < |ps| => FormatCidr(f, ps[i]))
  }

  // Insertion order, each text once: `[...new Set(texts)]`.
  function Dedupe(texts: seq<string>): (out: seq<string>)
    ensures forall t :: t in out <==> t in texts
    ensures |out| <= |texts|
  {
    if texts == [] then []
    else
      var init, last := texts[..|texts| - 1], texts[|texts| - 1];
      assert texts == init + [last];
      Dedupe(init) + if last in init then [] else [last]
  }

  function ResultPrefixes(including: seq<string>, excluding: seq<string>, f: Family): (ps: seq<Prefix>)
    ensures AllValid(Bits(f), ps)
  {
    KeptCorrect(including, excluding, f);
    MergeCorrect(Kept(including, excluding, f));
    SameAddressesWithin(Kept(including, excluding, f), Merge(Kept(including, excluding, f)), Pow2(Bits(f)));
    DecomposeAllExact(Bits(f), Merge(Kept(including, excluding, f)));
    DecomposeAll(Bits(f), Merge(Kept(including, excluding, f)))
  }

  function Subtract(including: seq<string>, excluding: seq<string>): CidrDifference {
    KeptCorrect(including, excluding, V4);
    KeptCorrect(including, excluding, V6);
    CidrDifference(
      Dedupe(Unparsed(including) + Texts(V4, ResultPrefixes(including, excluding, V4))
             + Texts(V6, ResultPrefixes(including, excluding, V6))),
      CountTouched(including, PerFamily(Blocks(excluding, V4), Blocks(excluding, V6))),
      PerFamily(Share(ParsedRanges(including, V4), Kept(including, excluding, V4)),
                Share(ParsedRanges(including, V6), Kept(including, excluding, V6))))
  }

  // ---- Carving is exact ---------------------------------------------------------------

  lemma {:induction false} ParsedWithin(texts: seq<string>, f: Family)
    ensures Within(ParsedRanges(texts, f), Pow2(Bits(f)))
  {
    if texts != [] {
      ParsedWithin(texts[1..], f);
      if ParsesTo(texts[0], f) {
        ParsedIsPrefix(texts[0]);
      }
    }
  }

  lemma {:induction false} KeptRangesExact(ranges: seq<Range>, blocks: seq<Range>, limit: nat)
    requires WellFormed(ranges) && Within(ranges, limit) && Canonical(blocks)
    ensures WellFormed(KeptRanges(ranges, blocks)) && Within(KeptRanges(ranges, blocks), limit)
    ensures forall a: int :: In(KeptRanges(ranges, blocks), a) <==> In(ranges, a) && !In(blocks, a)
    decreases |ranges|
  {
    if ranges != [] {
      var s, e := ranges[0].start, ranges[0].end;
      CarveExact(s, e, blocks);
      KeptRangesExact(ranges[1..], blocks, limit);
      forall a: int ensures In(KeptRanges(ranges, blocks), a) <==> In(ranges, a) && !In(blocks, a) {
        InConcat(Carve(s, e, blocks), KeptRanges(ranges[1..], blocks), a);
        InCons(ranges, a);
      }
    }
  }

  lemma KeptCorrect(including: seq<string>, excluding: seq<string>, f: Family)
    ensures Canonical(Blocks(excluding, f))
    ensures WellFormed(Kept(including, excluding, f)) && Within(Kept(including, excluding, f), Pow2(Bits(f)))
    ensures forall a: int :: In(Kept(including, excluding, f), a) <==>
              In(ParsedRanges(including, f), a) && !In(ParsedRanges(excluding, f), a)
  {
    MergeCorrect(ParsedRanges(excluding, f));
    ParsedWithin(including, f);
    KeptRangesExact(ParsedRanges(including, f), Blocks(excluding, f), Pow2(Bits(f)));
  }

  // ---- The program ---------------------------------------------------------------------

  // Binary search for the first block that ends at or after `start`.
  method FirstReaching(start: nat, blocks: seq<Range>) returns (low: nat)
    requires Canonical(blocks)
    ensures low <= |blocks|
    ensures forall i :: 0 <= i < low ==> blocks[i].end < start
    ensures forall i :: low <= i < |blocks| ==> blocks[i].end >= start
  {
    var high := |blocks|;
    low := 0;
    while low < high
      invariant 0 <= low <= high <= |blocks|
      invariant forall i :: 0 <= i < low ==> blocks[i].end < start
      invariant forall i :: high <= i < |blocks| ==> blocks[i].end >= start
    {
      var middle := (low + high) / 2;
      if blocks[middle].end < start {
        low := middle + 1;
      } else {
        high := middle;
      }
    }
  }

  // Carving by the blocks from an index on, onto the pieces out so far.
  function CarveOnto(pieces: seq<Range>, s: nat, e: nat, blocks: seq<Range>, index: nat): seq<Range>
    requires index <= |blocks|
    decreases |blocks| - index
  {
    if s > e then pieces
    else if index == |blocks| || blocks[index].start > e then pieces + [Range(s, e)]
    else if blocks[index].end < s then CarveOnto(pieces, s, e, blocks, index + 1)
    else
      var gap := if blocks[index].start > s then pieces + [Range(s, blocks[index].start - 1)] else pieces;
      CarveOnto(gap, blocks[index].end + 1, e, blocks, index + 1)
  }

  lemma {:induction false} CarveOntoIsCarve(pieces: seq<Range>, s: nat, e: nat, blocks: seq<Range>, index: nat)
    requires index <= |blocks|
    ensures CarveOnto(pieces, s, e, blocks, index) == pieces + Carve(s, e, blocks[index..])
    decreases |blocks| - index
  {
    if index < |blocks| {
      var block := blocks[index];
      assert blocks[index..][1..] == blocks[index + 1..];
      CarveOntoIsCarve(pieces, s, e, blocks, index + 1);
      CarveOntoIsCarve(pieces, block.end + 1, e, blocks, index + 1);
      if block.start > s {
        CarveOntoIsCarve(pieces + [Range(s, block.start - 1)], block.end + 1, e, blocks, index + 1);
      }
    }
  }

  lemma NextBlockLater(blocks: seq<Range>, index: nat)
    requires Canonical(blocks) && index < |blocks|
    ensures index + 1 < |blocks| ==> blocks[index].end + 1 <= blocks[index + 1].end
  {}

  // The carving loop over the blocks from `low` on.
  method CarveFrom(range: Range, blocks: seq<Range>, low: nat) returns (pieces: seq<Range>)
    requires range.start <= range.end && Canonical(blocks) && low <= |blocks|
    requires low < |blocks| ==> range.start <= blocks[low].end
    ensures pieces == Carve(range.start, range.end, blocks[low..])
  {
    ghost var whole := CarveOnto([], range.start, range.end, blocks, low);
    CarveOntoIsCarve([], range.start, range.end, blocks, low);
    pieces := [];
    var cursor: nat, index: nat := range.start, low;
    while index < |blocks| && blocks[index].start <= range.end
      invariant low <= index <= |blocks|
      invariant range.start <= cursor <= range.end
      invariant index < |blocks| ==> cursor <= blocks[index].end
      invariant CarveOnto(pieces, cursor, range.end, blocks, index) == whole
    {
      var block := blocks[index];
      NextBlockLater(blocks, index);
      if block.start > cursor {
        pieces := pieces + [Range(cursor, block.start - 1)];
      }
      if block.end >= range.end {
        cursor := range.end + 1;
        break;
      }
      cursor := block.end + 1;
      index := index + 1;
    }
    if cursor <= range.end {
      pieces := pieces + [Range(cursor, range.end)];
    }
  }

  method CarveOut(range: Range, blocks: seq<Range>) returns (pieces: seq<Range>, touched: bool)
    requires range.start <= range.end && Canonical(blocks)
    ensures pieces == Carve(range.start, range.end, blocks)
    ensures touched <==> Overlaps(range, blocks)
  {
    var low := FirstReaching(range.start, blocks);
    CarveSkip(range.start, range.end, blocks, low);
    if low >= |blocks| || blocks[low].start > range.end {
      return [range], false;
    }
    pieces := CarveFrom(range, blocks, low);
    touched := true;
  }

  lemma ParsedStep(texts: seq<string>, n: nat, f: Family)
    requires n < |texts|
    ensures ParsedRanges(texts[n..], f) ==
              (if ParsesTo(texts[n], f) then [ParseCidr(texts[n]).value.range] else [])
              + ParsedRanges(texts[n + 1..], f)
  {
    assert texts[n..][1..] == texts[n + 1..];
  }

  lemma Assoc<T>(a: seq<T>, b: seq<T>, c: seq<T>)
    ensures (a + b) + c == a + (b + c)
  {}

  // The ranges of the first `n` texts.
  ghost predicate Collected(texts: seq<string>, n: nat, f: Family, ranges: seq<Range>)
    requires n <= |texts|
  {
    ranges + ParsedRanges(texts[n..], f) == ParsedRanges(texts, f)
  }

  lemma CollectNext(texts: seq<string>, n: nat, f: Family, ranges: seq<Range>)
    requires n < |texts| && Collected(texts, n, f, ranges)
    ensures !ParsesTo(texts[n], f) ==> Collected(texts, n + 1, f, ranges)
    ensures ParsesTo(texts[n], f) ==> Collected(texts, n + 1, f, ranges + [ParseCidr(texts[n]).value.range])
  {
    ParsedStep(texts, n, f);
    if ParsesTo(texts[n], f) {
      Assoc(ranges, [ParseCidr(texts[n]).value.range], ParsedRanges(texts[n + 1..], f));
    }
  }

  ghost predicate CollectedBoth(texts: seq<string>, n: nat, ranges: PerFamily<seq<Range>>)
    requires n <= |texts|
  {
    Collected(texts, n, V4, ranges.v4) && Collected(texts, n, V6, ranges.v6)
  }

  lemma AllCollected(texts: seq<string>, f: Family, ranges: seq<Range>)
    ensures Collected(texts, 0, f, [])
    ensures Collected(texts, |texts|, f, ranges) ==> ranges == ParsedRanges(texts, f)
  {
    assert texts[0..] == texts && ranges + [] == ranges;
  }

  method CollectRanges(texts: seq<string>) returns (ranges: PerFamily<seq<Range>>)
    ensures ranges == PerFamily(ParsedRanges(texts, V4), ParsedRanges(texts, V6))
  {
    ranges := PerFamily([], []);
    AllCollected(texts, V4, []);
    AllCollected(texts, V6, []);
    for n := 0 to |texts|
      invariant CollectedBoth(texts, n, ranges)
    {
      CollectNext(texts, n, V4, ranges.v4);
      CollectNext(texts, n, V6, ranges.v6);
      var parsed := ParseCidr(texts[n]);
      if parsed.Some? {
        var f := parsed.value.family;
        ranges := ranges.With(f, ranges.Get(f) + [parsed.value.range]);
      }
    }
    AllCollected(texts, V4, ranges.v4);
    AllCollected(texts, V6, ranges.v6);
  }

  // What the loop over the included prefixes has gathered for one family.
  ghost predicate Gathered(texts: seq<string>, n: nat, f: Family, blocks: seq<Range>,
                           included: seq<Range>, kept: seq<Range>)
    requires n <= |texts|
  {
    && Collected(texts, n, f, included)
    && kept + KeptRanges(ParsedRanges(texts[n..], f), blocks) == KeptRanges(ParsedRanges(texts, f), blocks)
  }

  lemma GatherNext(texts: seq<string>, n: nat, f: Family, blocks: seq<Range>,
                   included: seq<Range>, kept: seq<Range>)
    requires n < |texts| && Gathered(texts, n, f, blocks, included, kept)
    ensures !ParsesTo(texts[n], f) ==> Gathered(texts, n + 1, f, blocks, included, kept)
    ensures ParsesTo(texts[n], f) ==>
              var r := ParseCidr(texts[n]).value.range;
              Gathered(texts, n + 1, f, blocks, included + [r], kept + Carve(r.start, r.end, blocks))
  {
    ParsedStep(texts, n, f);
    CollectNext(texts, n, f, included);
    if ParsesTo(texts[n], f) {
      var r := ParseCidr(texts[n]).value.range;
      KeptNext(r, ParsedRanges(texts[n + 1..], f), blocks);
      Assoc(kept, Carve(r.start, r.end, blocks), KeptRanges(ParsedRanges(texts[n + 1..], f), blocks));
    }
  }

  lemma KeptNext(r: Range, rest: seq<Range>, blocks: seq<Range>)
    requires r.start <= r.end
    ensures KeptRanges([r] + rest, blocks) == Carve(r.start, r.end, blocks) + KeptRanges(rest, blocks)
  {
    assert ([r] + rest)[1..] == rest;
  }

  ghost predicate GatheredBoth(texts: seq<string>, n: nat, blocks: PerFamily<seq<Range>>,
                               included: PerFamily<seq<Range>>, kept: PerFamily<seq<Range>>)
    requires n <= |texts|
  {
    && Gathered(texts, n, V4, blocks.v4, included.v4, kept.v4)
    && Gathered(texts, n, V6, blocks.v6, included.v6, kept.v6)
  }

  lemma GatherBothNext(texts: seq<string>, n: nat, blocks: PerFamily<seq<Range>>,
                       included: PerFamily<seq<Range>>, kept: PerFamily<seq<Range>>)
    requires n < |texts| && GatheredBoth(texts, n, blocks, included, kept)
    ensures ParseCidr(texts[n]).None? ==> GatheredBoth(texts, n + 1, blocks, included, kept)
    ensures ParseCidr(texts[n]).Some? ==>
              var f, r := ParseCidr(texts[n]).value.family, ParseCidr(texts[n]).value.range;
              GatheredBoth(texts, n + 1, blocks, included.With(f, included.Get(f) + [r]),
                           kept.With(f, kept.Get(f) + Carve(r.start, r.end, blocks.Get(f))))
  {
    GatherNext(texts, n, V4, blocks.v4, included.v4, kept.v4);
    GatherNext(texts, n, V6, blocks.v6, included.v6, kept.v6);
  }

  lemma GatheredAll(texts: seq<string>, blocks: PerFamily<seq<Range>>,
                    included: PerFamily<seq<Range>>, kept: PerFamily<seq<Range>>)
    requires GatheredBoth(texts, |texts|, blocks, included, kept)
    ensures included == PerFamily(ParsedRanges(texts, V4), ParsedRanges(texts, V6))
    ensures kept == PerFamily(KeptRanges(ParsedRanges(texts, V4), blocks.v4),
                              KeptRanges(ParsedRanges(texts, V6), blocks.v6))
  {
    assert texts[|texts|..] == [];
    assert included.v4 == ParsedRanges(texts, V4) && included.v6 == ParsedRanges(texts, V6);
    assert kept.v4 == KeptRanges(ParsedRanges(texts, V4), blocks.v4);
    assert kept.v6 == KeptRanges(ParsedRanges(texts, V6), blocks.v6);
  }

  lemma RestStep(texts: seq<string>, n: nat, blocks: PerFamily<seq<Range>>)
    requires n < |texts|
    ensures Unparsed(texts[n..]) ==
              (if ParseCidr(texts[n]).None? then [texts[n]] else []) + Unparsed(texts[n + 1..])
    ensures CountTouched(texts[n..], blocks) ==
              (if Touches(texts[n], blocks) then 1 else 0) + CountTouched(texts[n + 1..], blocks)
  {
    assert texts[n..][1..] == texts[n + 1..];
  }

  // The loop over the included prefixes.
  method Sift(including: seq<string>, blocks: PerFamily<seq<Range>>)
    returns (unparsed: seq<string>, included: PerFamily<seq<Range>>, kept: PerFamily<seq<Range>>, touched: nat)
    requires Canonical(blocks.v4) && Canonical(blocks.v6)
    ensures unparsed == Unparsed(including)
    ensures included == PerFamily(ParsedRanges(including, V4), ParsedRanges(including, V6))
    ensures kept == PerFamily(KeptRanges(ParsedRanges(including, V4), blocks.v4),
                              KeptRanges(ParsedRanges(including, V6), blocks.v6))
    ensures touched == CountTouched(including, blocks)
  {
    unparsed, included, kept, touched := [], PerFamily([], []), PerFamily([], []), 0;
    for n := 0 to |including|
      invariant unparsed + Unparsed(including[n..]) == Unparsed(including)
      invariant GatheredBoth(including, n, blocks, included, kept)
      invariant touched + CountTouched(including[n..], blocks) == CountTouched(including, blocks)
    {
      GatherBothNext(including, n, blocks, included, kept);
      RestStep(including, n, blocks);
      var parsed := ParseCidr(including[n]);
      ghost var rest := Unparsed(including[n + 1..]);
      if parsed.None? {
        assert unparsed + ([including[n]] + rest) == (unparsed + [including[n]]) + rest;
        unparsed := unparsed + [including[n]];
      } else {
        assert [] + rest == rest;
        var f, range := parsed.value.family, parsed.value.range;
        ParsedIsPrefix(including[n]);
        included := included.With(f, included.Get(f) + [range]);
        var pieces, hit := CarveOut(range, blocks.Get(f));
        kept := kept.With(f, kept.Get(f) + pieces);
        touched := touched + if hit then 1 else 0;
      }
    }
    GatheredAll(including, blocks, included, kept);
  }

  method SubtractCidrs(including: seq<string>, excluding: seq<string>) returns (result: CidrDifference)
    ensures result == Subtract(including, excluding)
  {
    var excluded := CollectRanges(excluding);
    var blocks4 := MergeRanges(excluded.v4);
    var blocks6 := MergeRanges(excluded.v6);
    KeptCorrect(including, excluding, V4);
    KeptCorrect(including, excluding, V6);
    var unparsed, included, kept, touched := Sift(including, PerFamily(blocks4, blocks6));
    var printed4 := PrintAll(V4, kept.v4);
    var printed6 := PrintAll(V6, kept.v6);
    result := CidrDifference(Dedupe(unparsed + printed4 + printed6), touched,
                             PerFamily(Share(included.v4, kept.v4), Share(included.v6, kept.v6)));
  }

  // Merge, decompose and print the kept ranges of one family.
  method PrintAll(f: Family, kept: seq<Range>) returns (texts: seq<string>)
    requires WellFormed(kept) && Within(kept, Pow2(Bits(f)))
    ensures AllValid(Bits(f), DecomposeAll(Bits(f), Merge(kept)))
    ensures texts == Texts(f, DecomposeAll(Bits(f), Merge(kept)))
  {
    var merged := MergeRanges(kept);
    MergeCorrect(kept);
    SameAddressesWithin(kept, merged, Pow2(Bits(f)));
    DecomposeAllExact(Bits(f), merged);
    var ps := DecomposeRanges(Bits(f), merged);
    texts := PrintPrefixes(f, ps);
  }

  method DecomposeRanges(bits: nat, merged: seq<Range>) returns (ps: seq<Prefix>)
    ensures ps == DecomposeAll(bits, merged)
  {
    ps := [];
    for n := 0 to |merged|
      invariant ps + DecomposeAll(bits, merged[n..]) == DecomposeAll(bits, merged)
    {
      assert merged[n..][1..] == merged[n + 1..];
      var more := RangeToPrefixes(bits, merged[n].start, merged[n].end);
      ps := ps + more;
    }
  }

  method PrintPrefixes(f: Family, ps: seq<Prefix>) returns (texts: seq<string>)
    requires AllValid(Bits(f), ps)
    ensures texts == Texts(f, ps)
  {
    texts := [];
    for n := 0 to |ps|
      invariant |texts| == n && forall i :: 0 <= i < n ==> texts[i] == Texts(f, ps)[i]
    {
      var text := PrintPrefix(f, ps[n]);
      texts := texts + [text];
    }
  }

  method PrintPrefix(f: Family, p: Prefix) returns (text: string)
    requires p.host <= Bits(f)
    ensures text == FormatCidr(f, p)
  {
    var address := PrintAddress(f, p.base);
    text := address + "/" + Render(10, Bits(f) - p.host);
  }
}
