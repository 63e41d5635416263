// Reading back what was printed, for both families.
module AddressRoundTrip {
  import opened Options
  import opened Powers
  import opened Numerals
  import opened Prefixes
  import opened Ranges
  import opened AddressText

  lemma PowerValues()
    ensures Pow2(8) == 256 && Pow2(16) == 65536 && Pow(10, 3) == 1000 && Pow(16, 4) == 65536
  {
    assert Pow2(4) == 16;
    Pow2Add(4, 4);
    Pow2Add(8, 8);
    assert Pow(10, 1) == 10 && Pow(10, 2) == 100;
    assert Pow(16, 1) == 16 && Pow(16, 2) == 256 && Pow(16, 3) == 4096;
  }

  lemma {:induction false} PowOfPow2(k: nat, n: nat)
    ensures Pow(Pow2(k), n) == Pow2(k * n)
    decreases n
  {
    if n > 0 {
      PowOfPow2(k, n - 1);
      assert k * n == k + k * (n - 1);
      assert k * (n - 1) >= 0 by { MulGe(n - 1, k); }
      Pow2Add(k, k * (n - 1));
    }
  }

  lemma WidthInDigits()
    ensures Pow2(32) == Pow(256, 4) && Pow2(128) == Pow(65536, 8)
  {
    PowerValues();
    PowOfPow2(8, 4);
    PowOfPow2(16, 8);
  }

  // ---- IPv4 ----------------------------------------------------------------------

  lemma PrintedOctet(d: nat)
    requires d < 256
    ensures Octet(Render(10, d)) && Parse(10, Render(10, d)) == d
    ensures '.' !in Render(10, d) && '/' !in Render(10, d) && ':' !in Render(10, d)
  {
    PowerValues();
    RenderParse(10, d);
    RenderShape(10, d);
    RenderLength(10, d, 3);
    assert |Render(10, d)| > 1 ==> d != 0;
  }

  lemma PrintedOctets(ds: seq<nat>, parts: seq<string>)
    requires |ds| == |parts| == 4 && forall i :: 0 <= i < 4 ==> ds[i] < 256 && parts[i] == Render(10, ds[i])
    ensures forall i :: 0 <= i < 4 ==> Octet(parts[i]) && Parse(10, parts[i]) == ds[i]
    ensures forall i :: 0 <= i < 4 ==> '.' !in parts[i] && '/' !in parts[i] && ':' !in parts[i]
  {
    forall i | 0 <= i < 4
      ensures Octet(parts[i]) && Parse(10, parts[i]) == ds[i]
      ensures '.' !in parts[i] && '/' !in parts[i] && ':' !in parts[i]
    {
      PrintedOctet(ds[i]);
    }
  }

  lemma JoinedOctetsParse(ds: seq<nat>, parts: seq<string>)
    requires |ds| == |parts| == 4 && forall i :: 0 <= i < 4 ==> Octet(parts[i]) && Parse(10, parts[i]) == ds[i]
    requires forall i :: 0 <= i < 4 ==> '.' !in parts[i]
    ensures IsV4(Join(parts, '.')) && ParseV4(Join(parts, '.')) == FromDigits(256, ds)
  {
    SplitJoin(parts, '.');
    assert Values(10, parts) == ds;
  }

  lemma V4RoundTrip(value: nat)
    requires value < Pow2(32)
    ensures IsV4(FormatV4(value)) && ParseV4(FormatV4(value)) == value
    ensures '/' !in FormatV4(value) && ':' !in FormatV4(value)
  {
    var ds := ToDigits(256, 4, value);
    var parts := [Render(10, ds[0]), Render(10, ds[1]), Render(10, ds[2]), Render(10, ds[3])];
    PrintedOctets(ds, parts);
    JoinedOctetsParse(ds, parts);
    JoinLacks(parts, '.', '/');
    JoinLacks(parts, '.', ':');
    WidthInDigits();
    DigitsRoundTrip(256, 4, value);
  }

  // ---- IPv6 ----------------------------------------------------------------------

  lemma PrintedGroups(value: nat)
    ensures AllHex(HexGroups(value)) && AllNumerals(16, HexGroups(value))
    ensures Values(16, HexGroups(value)) == ToDigits(65536, 8, value)
    ensures forall i :: 0 <= i < 8 ==>
              ':' !in HexGroups(value)[i] && '.' !in HexGroups(value)[i] && '/' !in HexGroups(value)[i]
  {
    var ds, groups := ToDigits(65536, 8, value), HexGroups(value);
    PowerValues();
    forall i | 0 <= i < 8
      ensures HexGroup(groups[i]) && Parse(16, groups[i]) == ds[i]
      ensures ':' !in groups[i] && '.' !in groups[i] && '/' !in groups[i]
    {
      RenderParse(16, ds[i]);
      RenderShape(16, ds[i]);
      RenderLength(16, ds[i], 4);
    }
  }

  // Groups as they are printed: non-empty and without a separator.
  ghost predicate PlainGroups(groups: seq<string>) {
    forall i :: 0 <= i < |groups| ==> groups[i] != "" && ':' !in groups[i]
  }

  // Joining plain groups leaves no "::" and no ":" at either end.
  lemma {:induction false} JoinHasNoDouble(groups: seq<string>)
    requires PlainGroups(groups) && groups != []
    ensures var t := Join(groups, ':');
      && t != "" && t[0] != ':' && t[|t| - 1] != ':'
      && forall k :: 0 <= k < |t| - 1 ==> !DoubleAt(t, k)
    decreases |groups|
  {
    var t := Join(groups, ':');
    var g := groups[0];
    assert forall k :: 0 <= k < |g| ==> g[k] != ':';
    if |groups| > 1 {
      var rest := Join(groups[1..], ':');
      JoinHasNoDouble(groups[1..]);
      assert t == g + ":" + rest;
      forall k | 0 <= k < |t| - 1 ensures !DoubleAt(t, k) {
        if k < |g| {
          assert t[k] == g[k];
        } else if k == |g| {
          assert t[k + 1] == rest[0];
        } else {
          assert !DoubleAt(rest, k - |g| - 1);
          assert t[k] == rest[k - |g| - 1] && t[k + 1] == rest[k - |g|];
        }
      }
      assert t[|t| - 1] == rest[|rest| - 1];
    }
  }

  lemma FindDoubleIs(t: string, i: nat)
    requires i + 1 < |t| && t[i] == ':' && t[i + 1] == ':'
    requires forall k :: 0 <= k < i ==> !DoubleAt(t, k)
    ensures FindDouble(t) == i
  {
    assert DoubleAt(t, i);
    assert FindDouble(t) < i ==> DoubleAt(t, FindDouble(t));
  }

  lemma NoDouble(t: string)
    requires forall k :: 0 <= k < |t| - 1 ==> !DoubleAt(t, k)
    ensures SplitDouble(t) == [t]
  {}

  // A text of groups without "::" reads back as those groups.
  lemma GroupsInJoin(groups: seq<string>)
    requires PlainGroups(groups)
    ensures GroupsIn(Join(groups, ':')) == groups
    ensures SplitDouble(Join(groups, ':')) == [Join(groups, ':')]
  {
    if groups == [] {
      NoDouble("");
    } else {
      JoinHasNoDouble(groups);
      NoDouble(Join(groups, ':'));
      SplitJoin(groups, ':');
    }
  }

  // head::tail splits at its only "::".
  lemma SplitCompressed(head: seq<string>, tail: seq<string>)
    requires PlainGroups(head) && PlainGroups(tail)
    ensures SplitDouble(Join(head, ':') + "::" + Join(tail, ':')) == [Join(head, ':'), Join(tail, ':')]
  {
    var h, r := Join(head, ':'), Join(tail, ':');
    var t := h + "::" + r;
    if head != [] {
      JoinHasNoDouble(head);
    }
    forall k | 0 <= k < |h| ensures !DoubleAt(t, k) {
      if k < |h| - 1 {
        assert !DoubleAt(h, k) && t[k] == h[k] && t[k + 1] == h[k + 1];
      } else {
        assert t[k] == h[|h| - 1];
      }
    }
    FindDoubleIs(t, |h|);
    assert t[..|h|] == h && t[|h| + 2..] == r;
    GroupsInJoin(tail);
  }

  lemma NoDotsNoRewrite(text: string)
    requires '.' !in text
    ensures '.' !in Tail(text) && ExpandDotted(text) == text
  {}

  lemma JoinTwoHasColon(groups: seq<string>)
    requires |groups| >= 2
    ensures ':' in Join(groups, ':')
  {
    assert Join(groups, ':')[|groups[0]|] == ':';
  }

  ghost predicate PrintableGroups(groups: seq<string>) {
    && PlainGroups(groups) && AllHex(groups)
    && forall i :: 0 <= i < |groups| ==> '.' !in groups[i]
  }

  lemma UncompressedReadsBack(groups: seq<string>)
    requires |groups| == 8 && PrintableGroups(groups)
    ensures IsV6(Join(groups, ':')) && GroupsOf(Join(groups, ':')) == groups
  {
    JoinLacks(groups, ':', '.');
    NoDotsNoRewrite(Join(groups, ':'));
    JoinTwoHasColon(groups);
    GroupsInJoin(groups);
  }

  lemma CompressedSplits(head: seq<string>, tail: seq<string>)
    requires PrintableGroups(head) && PrintableGroups(tail)
    ensures var text := Join(head, ':') + "::" + Join(tail, ':');
      && ':' in text && '.' !in Tail(text)
      && SplitDouble(ExpandDotted(text)) == [Join(head, ':'), Join(tail, ':')]
  {
    var text := Join(head, ':') + "::" + Join(tail, ':');
    JoinLacks(head, ':', '.');
    JoinLacks(tail, ':', '.');
    NoDotsNoRewrite(text);
    assert text[|Join(head, ':')|] == ':';
    SplitCompressed(head, tail);
  }

  lemma TwoPartsAreV6(text: string, h: string, t: string)
    requires ':' in text && '.' !in Tail(text) && SplitDouble(ExpandDotted(text)) == [h, t]
    requires AllHex(GroupsIn(h)) && AllHex(GroupsIn(t)) && |GroupsIn(h)| + |GroupsIn(t)| <= 7
    ensures IsV6(text)
    ensures GroupsOf(text) == GroupsIn(h) + Zeros(8 - |GroupsIn(h)| - |GroupsIn(t)|) + GroupsIn(t)
  {}

  // "head::tail" stands for head, as many zero groups as are missing, and tail.
  lemma CompressedReadsBack(head: seq<string>, tail: seq<string>)
    requires |head| + |tail| <= 7 && PrintableGroups(head) && PrintableGroups(tail)
    ensures var text := Join(head, ':') + "::" + Join(tail, ':');
      IsV6(text) && GroupsOf(text) == head + Zeros(8 - |head| - |tail|) + tail
  {
    CompressedSplits(head, tail);
    GroupsInJoin(head);
    GroupsInJoin(tail);
    TwoPartsAreV6(Join(head, ':') + "::" + Join(tail, ':'), Join(head, ':'), Join(tail, ':'));
  }

  lemma GapIsZeroRun(groups: seq<string>, i: nat, j: nat)
    requires |groups| == 8 && IsZeroRun(groups, i, j)
    ensures groups[..i] + Zeros(8 - |groups[..i]| - |groups[j..]|) + groups[j..] == groups
  {}

  lemma CompressedFormReadsBack(groups: seq<string>, i: nat, j: nat)
    requires |groups| == 8 && PrintableGroups(groups) && IsZeroRun(groups, i, j)
    ensures var text := Join(groups[..i], ':') + "::" + Join(groups[j..], ':');
      IsV6(text) && GroupsOf(text) == groups
  {
    CompressedReadsBack(groups[..i], groups[j..]);
    GapIsZeroRun(groups, i, j);
  }

  // Printing eight groups, compressed or not, and reading them back.
  lemma FormatGroupsReadsBack(groups: seq<string>)
    requires |groups| == 8 && PrintableGroups(groups)
    ensures IsV6(FormatGroups(groups)) && GroupsOf(FormatGroups(groups)) == groups
  {
    var run := ZeroRunOf(groups);
    CompressesFirstLongestRun(groups);
    if run.start < 0 {
      UncompressedReadsBack(groups);
    } else {
      CompressedFormReadsBack(groups, run.start, run.start + run.length);
    }
  }

  lemma FormatGroupsLacks(groups: seq<string>, d: char)
    requires d != ':' && forall i :: 0 <= i < |groups| ==> d !in groups[i]
    ensures d !in FormatGroups(groups)
  {
    var run := ZeroRunOf(groups);
    CompressesFirstLongestRun(groups);
    if run.start < 0 {
      JoinLacks(groups, ':', d);
    } else {
      JoinLacks(groups[..run.start], ':', d);
      JoinLacks(groups[run.start + run.length..], ':', d);
    }
  }

  lemma HexGroupsArePlain(groups: seq<string>)
    requires AllHex(groups) && forall i :: 0 <= i < |groups| ==> ':' !in groups[i]
    ensures PlainGroups(groups)
  {}

  lemma V6RoundTrip(value: nat)
    requires value < Pow2(128)
    ensures IsV6(FormatAddress(V6, value)) && ParseV6(FormatAddress(V6, value)) == value
    ensures '/' !in FormatAddress(V6, value) && '.' !in FormatAddress(V6, value)
    ensures !IsV4(FormatAddress(V6, value))
  {
    var groups := HexGroups(value);
    PrintedGroups(value);
    HexGroupsArePlain(groups);
    FormatGroupsReadsBack(groups);
    FormatGroupsLacks(groups, '/');
    FormatGroupsLacks(groups, '.');
    WidthInDigits();
    DigitsRoundTrip(65536, 8, value);
    NotV4(FormatAddress(V6, value));
  }

  lemma NotV4(text: string)
    requires '.' !in text
    ensures !IsV4(text)
  {
    assert IndexOf(text, '.') == |text|;
  }

  // ---- Prefixes ------------------------------------------------------------------

  lemma NetworkOfAligned(f: Family, p: Prefix)
    requires ValidPrefix(Bits(f), p)
    ensures NetworkOf(f, p.base, Bits(f) - p.host) ==
              Some(FamilyRange(f, Range(p.base, p.base + Pow2(p.host) - 1)))
  {
    assert Bits(f) - (Bits(f) - p.host) == p.host;
    AlignedStart(p.base, Pow2(p.host));
  }

  lemma AlignedStart(value: nat, size: nat)
    requires size > 0 && value % size == 0
    ensures NetworkStart(value, size) == value
  {
    DivMod(value, size);
    MulCommutes(value / size, size);
  }

  lemma SplitAtSlash(address: string, prefix: string)
    requires '/' !in address && '/' !in prefix
    ensures Split(address + "/" + prefix, '/') == [address, prefix]
  {
    SplitJoin([address, prefix], '/');
    assert Join([address, prefix], '/') == address + "/" + prefix;
  }

  // Printing an aligned block and parsing the text gives the block's range.
  lemma CidrRoundTrip(f: Family, p: Prefix)
    requires ValidPrefix(Bits(f), p)
    ensures ParseCidr(FormatCidr(f, p)) == Some(FamilyRange(f, Range(p.base, p.base + Pow2(p.host) - 1)))
  {
    var address, prefix := FormatAddress(f, p.base), Render(10, Bits(f) - p.host);
    if f.V4? {
      V4RoundTrip(p.base);
    } else {
      V6RoundTrip(p.base);
    }
    RenderParse(10, Bits(f) - p.host);
    RenderShape(10, Bits(f) - p.host);
    SplitAtSlash(address, prefix);
    NetworkOfAligned(f, p);
  }
}
