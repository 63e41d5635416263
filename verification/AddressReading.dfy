// What an address text stands for: which texts are read, the number an address
// spells, and the block of addresses a prefix text names.
module AddressReading {
  import opened Options
  import opened Powers
  import opened Numerals
  import opened Prefixes
  import opened Ranges
  import opened AddressText
  import opened AddressRoundTrip

  // ---- Digits ----------------------------------------------------------------------

  lemma DigitTable(c: char)
    ensures DigitValue(c) ==
      match c
      case '0' => 0 case '1' => 1 case '2' => 2 case '3' => 3 case '4' => 4
      case '5' => 5 case '6' => 6 case '7' => 7 case '8' => 8 case '9' => 9
      case 'a' => 10 case 'b' => 11 case 'c' => 12 case 'd' => 13 case 'e' => 14 case 'f' => 15
      case 'A' => 10 case 'B' => 11 case 'C' => 12 case 'D' => 13 case 'E' => 14 case 'F' => 15
      case _ => -1
  {}

  // Leading zeros add nothing.
  lemma {:induction false} LeadingZero(b: nat, s: string)
    requires b > 0 && AllDigits(b, s)
    ensures AllDigits(b, "0" + s) && Parse(b, "0" + s) == Parse(b, s)
    decreases |s|
  {
    if s == "" {
      assert "0"[..0] == "";
    } else {
      var init, last := s[..|s| - 1], s[|s| - 1];
      LeadingZero(b, init);
      ParseAppend(b, "0" + init, last);
      ParseAppend(b, init, last);
      assert "0" + s == ("0" + init) + [last] && s == init + [last];
    }
  }

  // A decimal numeral without a leading zero is the printed form of its value.
  lemma {:induction false} DecimalIsPrinted(s: string)
    requires IsNumeral(10, s) && (|s| > 1 ==> s[0] != '0')
    ensures Render(10, Parse(10, s)) == s
    decreases |s|
  {
    var init, last := s[..|s| - 1], s[|s| - 1];
    if init == "" {
      OneDigit(s);
    } else {
      assert init[0] == s[0];
      DecimalIsPrinted(init);
      OneMoreDigit(s, init, last);
    }
  }

  lemma OneDigit(s: string)
    requires |s| == 1 && IsNumeral(10, s)
    ensures Render(10, Parse(10, s)) == s
  {
    assert IsDigit(10, s[0]);
    LastDigitChar(s[0]);
    ParseAppend(10, "", s[0]);
    assert s == "" + [s[0]];
  }

  lemma OneMoreDigit(s: string, init: string, last: char)
    requires s == init + [last] && AllDigits(10, s) && init != "" && init[0] != '0'
    requires AllDigits(10, init) && Render(10, Parse(10, init)) == init
    ensures Render(10, Parse(10, s)) == s
  {
    assert IsDigit(10, s[|s| - 1]);
    ParseAppend(10, init, last);
    LastDigitChar(last);
    RenderShape(10, Parse(10, init));
    RenderAppend(Parse(10, init), DigitValue(last));
  }

  lemma LastDigitChar(c: char)
    requires IsDigit(10, c)
    ensures DIGITS[DigitValue(c)] == c
  {}

  lemma RenderAppend(q: nat, d: nat)
    requires q > 0 && d < 10
    ensures Render(10, 10 * q + d) == Render(10, q) + [DIGITS[d]]
  {
    assert (10 * q + d) / 10 == q && (10 * q + d) % 10 == d;
  }

  // ---- IPv4 --------------------------------------------------------------------------

  lemma {:induction false} SplitIsJoin(s: string, c: char)
    ensures Join(Split(s, c), c) == s
    ensures forall i :: 0 <= i < |Split(s, c)| ==> c !in Split(s, c)[i]
    decreases |s|
  {
    var i := IndexOf(s, c);
    if i < |s| {
      SplitIsJoin(s[i + 1..], c);
      assert s == s[..i] + [c] + s[i + 1..];
    }
  }

  // Dotted decimal, without leading zeros: the address texts of IPv4 are the
  // printed quads of four octets, and stand for them, highest first.
  ghost predicate WritesQuad(address: string, a: nat, b: nat, c: nat, d: nat) {
    && a < 256 && b < 256 && c < 256 && d < 256
    && address == Render(10, a) + "." + Render(10, b) + "." + Render(10, c) + "." + Render(10, d)
  }

  lemma V4Spells(address: string) returns (a: nat, b: nat, c: nat, d: nat)
    requires IsV4(address)
    ensures WritesQuad(address, a, b, c, d)
    ensures ParseV4(address) == a * 0x100_0000 + b * 0x1_0000 + c * 0x100 + d
  {
    var parts := Split(address, '.');
    SplitIsJoin(address, '.');
    var vs := Values(10, parts);
    forall i | 0 <= i < 4 ensures vs[i] < 256 && Render(10, vs[i]) == parts[i] {
      assert Octet(parts[i]);
      DecimalIsPrinted(parts[i]);
    }
    FourParts(parts);
    FourDigits(vs);
    a, b, c, d := vs[0], vs[1], vs[2], vs[3];
  }

  lemma QuadIsV4(address: string, a: nat, b: nat, c: nat, d: nat)
    requires WritesQuad(address, a, b, c, d)
    ensures IsV4(address)
  {
    QuadJoined(address, [a, b, c, d], [Render(10, a), Render(10, b), Render(10, c), Render(10, d)]);
  }

  lemma QuadJoined(address: string, ds: seq<nat>, parts: seq<string>)
    requires |ds| == |parts| == 4 && forall i :: 0 <= i < 4 ==> ds[i] < 256 && parts[i] == Render(10, ds[i])
    requires address == parts[0] + "." + parts[1] + "." + parts[2] + "." + parts[3]
    ensures IsV4(address)
  {
    FourParts(parts);
    PrintedOctets(ds, parts);
    JoinedOctetsParse(ds, parts);
  }

  lemma FourParts(parts: seq<string>)
    requires |parts| == 4
    ensures Join(parts, '.') == parts[0] + "." + parts[1] + "." + parts[2] + "." + parts[3]
  {
    assert parts[1..][1..] == parts[2..] && parts[2..][1..] == parts[3..];
    assert Join(parts[3..], '.') == parts[3];
    assert Join(parts[2..], '.') == parts[2] + "." + parts[3];
    assert Join(parts[1..], '.') == parts[1] + "." + (parts[2] + "." + parts[3]);
  }

  lemma FourDigits(ds: seq<nat>)
    requires |ds| == 4
    ensures FromDigits(256, ds) == ds[0] * 0x100_0000 + ds[1] * 0x1_0000 + ds[2] * 0x100 + ds[3]
  {
    assert ds[..3][..2] == ds[..2] && ds[..2][..1] == ds[..1] && ds[..1][..0] == [];
    assert FromDigits(256, ds[..1]) == ds[0];
    assert FromDigits(256, ds[..2]) == ds[0] * 256 + ds[1];
    assert FromDigits(256, ds[..3]) == (ds[0] * 256 + ds[1]) * 256 + ds[2];
  }

  // ---- IPv6 --------------------------------------------------------------------------

  // The number eight 16-bit groups spell, highest first.
  function EightGroups(v: seq<nat>): nat
    requires |v| == 8
  {
    ((((((v[0] * 65536 + v[1]) * 65536 + v[2]) * 65536 + v[3]) * 65536 + v[4]) * 65536 + v[5]) * 65536 + v[6]) * 65536
    + v[7]
  }

  lemma FromEight(v: seq<nat>)
    requires |v| == 8
    ensures FromDigits(65536, v) == EightGroups(v)
  {
    assert v[..7][..6] == v[..6] && v[..6][..5] == v[..5] && v[..5][..4] == v[..4] && v[..4][..3] == v[..3];
    assert v[..3][..2] == v[..2] && v[..2][..1] == v[..1] && v[..1][..0] == [];
    var f1 := v[0];
    assert FromDigits(65536, v[..1]) == f1;
    var f2 := f1 * 65536 + v[1];
    assert FromDigits(65536, v[..2]) == f2;
    var f3 := f2 * 65536 + v[2];
    assert FromDigits(65536, v[..3]) == f3;
    var f4 := f3 * 65536 + v[3];
    assert FromDigits(65536, v[..4]) == f4;
    var f5 := f4 * 65536 + v[4];
    assert FromDigits(65536, v[..5]) == f5;
    var f6 := f5 * 65536 + v[5];
    assert FromDigits(65536, v[..6]) == f6;
    var f7 := f6 * 65536 + v[6];
    assert FromDigits(65536, v[..7]) == f7;
  }

  // A text of hexadecimal groups, all eight or with one "::" for those missing.
  ghost predicate WritesGroups(address: string, groups: seq<string>) {
    && |groups| == 8 && AllHex(groups)
    && (address == Join(groups, ':')
        || exists head, tail :: |head| + |tail| <= 7 && address == Join(head, ':') + "::" + Join(tail, ':')
             && groups == head + Zeros(8 - |head| - |tail|) + tail)
  }

  lemma {:induction false} SplitDoubleParts(t: string)
    ensures |SplitDouble(t)| == 1 ==> t == SplitDouble(t)[0]
    ensures |SplitDouble(t)| == 2 ==> t == SplitDouble(t)[0] + "::" + SplitDouble(t)[1]
    decreases |t|
  {
    var i := FindDouble(t);
    if i < |t| {
      SplitDoubleParts(t[i + 2..]);
      assert t == t[..i] + "::" + t[i + 2..];
    }
  }

  lemma GroupsInIsJoin(s: string)
    ensures Join(GroupsIn(s), ':') == s
  {
    SplitIsJoin(s, ':');
  }

  lemma OnePartSpells(address: string)
    requires V6Parts([address])
    ensures WritesGroups(address, GapFilled([address]))
  {
    GroupsInIsJoin(address);
  }

  lemma TwoPartsSpell(address: string, h: string, t: string)
    requires V6Parts([h, t]) && address == h + "::" + t
    ensures WritesGroups(address, GapFilled([h, t]))
  {
    var head, tail := GroupsIn(h), GroupsIn(t);
    GroupsInIsJoin(h);
    GroupsInIsJoin(t);
    GapFilledTwo(h, t);
    assert address == Join(head, ':') + "::" + Join(tail, ':');
  }

  lemma GapFilledTwo(h: string, t: string)
    requires V6Parts([h, t])
    ensures |GroupsIn(h)| + |GroupsIn(t)| <= 7
    ensures GapFilled([h, t]) == GroupsIn(h) + Zeros(8 - |GroupsIn(h)| - |GroupsIn(t)|) + GroupsIn(t)
  {}

  lemma PartsSpell(address: string, parts: seq<string>)
    requires parts == SplitDouble(address) && V6Parts(parts)
    ensures WritesGroups(address, GapFilled(parts))
  {
    SplitDoubleParts(address);
    if |parts| == 1 {
      assert parts == [address];
      OnePartSpells(address);
    } else {
      assert parts == [parts[0], parts[1]];
      TwoPartsSpell(address, parts[0], parts[1]);
    }
  }

  // The address texts of IPv6 without a dotted quad are eight groups, or fewer
  // around one "::", and stand for them, highest first.
  lemma V6Spells(address: string)
    requires IsV6(address) && '.' !in Tail(address)
    ensures WritesGroups(address, GroupsOf(address))
    ensures AllNumerals(16, GroupsOf(address)) && ParseV6(address) == EightGroups(Values(16, GroupsOf(address)))
  {
    PartsSpell(address, SplitDouble(address));
    FromEight(Values(16, GroupsOf(address)));
  }

  lemma HexIsPrintable(groups: seq<string>)
    requires AllHex(groups)
    ensures PrintableGroups(groups)
  {
    forall i, c | 0 <= i < |groups| && c in groups[i] ensures c != ':' && c != '.' {
      assert HexGroup(groups[i]);
      var k :| 0 <= k < |groups[i]| && groups[i][k] == c;
      assert IsDigit(16, groups[i][k]);
    }
  }

  lemma HexEnds(groups: seq<string>, head: seq<string>, n: nat, tail: seq<string>)
    requires AllHex(groups) && groups == head + Zeros(n) + tail
    ensures AllHex(head) && AllHex(tail)
  {
    forall i | 0 <= i < |head| ensures HexGroup(head[i]) { assert head[i] == groups[i]; }
    forall i | 0 <= i < |tail| ensures HexGroup(tail[i]) { assert tail[i] == groups[|head| + n + i]; }
  }

  lemma CompressedRead(address: string, groups: seq<string>, head: seq<string>, tail: seq<string>)
    requires AllHex(head) && AllHex(tail) && |head| + |tail| <= 7 && address == Join(head, ':') + "::" + Join(tail, ':')
    requires groups == head + Zeros(8 - |head| - |tail|) + tail
    ensures IsV6(address) && GroupsOf(address) == groups
  {
    HexIsPrintable(head);
    HexIsPrintable(tail);
    CompressedReadsBack(head, tail);
  }

  lemma CompressedHasNoDot(address: string, head: seq<string>, tail: seq<string>)
    requires AllHex(head) && AllHex(tail) && address == Join(head, ':') + "::" + Join(tail, ':')
    ensures '.' !in Tail(address)
  {
    HexIsPrintable(head);
    HexIsPrintable(tail);
    JoinLacks(head, ':', '.');
    JoinLacks(tail, ':', '.');
  }

  lemma UncompressedIsV6(groups: seq<string>)
    requires |groups| == 8 && AllHex(groups)
    ensures var address := Join(groups, ':');
      IsV6(address) && '.' !in Tail(address) && GroupsOf(address) == groups
  {
    HexIsPrintable(groups);
    UncompressedReadsBack(groups);
    JoinLacks(groups, ':', '.');
  }

  // Every text of that form is an address, read as those groups.
  lemma GroupsAreV6(address: string, groups: seq<string>)
    requires WritesGroups(address, groups)
    ensures IsV6(address) && '.' !in Tail(address) && GroupsOf(address) == groups
  {
    if address == Join(groups, ':') {
      UncompressedIsV6(groups);
    } else {
      var head, tail :| |head| + |tail| <= 7 && address == Join(head, ':') + "::" + Join(tail, ':')
                        && groups == head + Zeros(8 - |head| - |tail|) + tail;
      HexEnds(groups, head, 8 - |head| - |tail|, tail);
      CompressedRead(address, groups, head, tail);
      CompressedHasNoDot(address, head, tail);
    }
  }

  // ---- Embedded dotted quads -------------------------------------------------------

  predicate EndsGroup(pre: string) {
    pre == "" || pre[|pre| - 1] == ':'
  }

  // Two groups without a separator in them.
  predicate TwoGroups(h: string, l: string) {
    h != "" && l != "" && ':' !in h && ':' !in l
  }

  lemma TwoGroupsEnd(h: string, l: string)
    requires TwoGroups(h, l)
    ensures var x := h + ":" + l;
      x[0] != ':' && forall k :: 0 <= k < |x| - 1 ==> !DoubleAt(x, k)
  {
    var x := h + ":" + l;
    forall k | 0 <= k < |x| && k != |h| ensures x[k] != ':' {
      assert k < |h| ==> x[k] == h[k];
      assert k > |h| ==> x[k] == l[k - |h| - 1];
    }
  }

  lemma NoDoubleAcross(pre: string, x: string)
    requires x != "" && x[0] != ':' && forall k :: 0 <= k < |x| - 1 ==> !DoubleAt(x, k)
    requires forall k :: 0 <= k < |pre| - 1 ==> !DoubleAt(pre, k)
    ensures forall k :: 0 <= k < |pre + x| - 1 ==> !DoubleAt(pre + x, k)
  {
    forall k | 0 <= k < |pre + x| - 1 ensures !DoubleAt(pre + x, k) {
      if k >= |pre| {
        assert !DoubleAt(x, k - |pre|) && (pre + x)[k] == x[k - |pre|] && (pre + x)[k + 1] == x[k + 1 - |pre|];
      } else if k == |pre| - 1 {
        assert (pre + x)[k + 1] == x[0];
      } else {
        assert !DoubleAt(pre, k);
      }
    }
  }

  lemma FindDoubleAppend(pre: string, x: string)
    requires x != "" && x[0] != ':' && forall k :: 0 <= k < |x| - 1 ==> !DoubleAt(x, k)
    ensures FindDouble(pre) == |pre| ==> SplitDouble(pre + x) == [pre + x]
    ensures FindDouble(pre) < |pre| ==> FindDouble(pre + x) == FindDouble(pre)
  {
    if FindDouble(pre) == |pre| {
      NoDoubleAcross(pre, x);
      NoDouble(pre + x);
    } else {
      var i := FindDouble(pre);
      assert DoubleAt(pre, i);
      forall k | 0 <= k < i ensures !DoubleAt(pre + x, k) {
        assert !DoubleAt(pre, k);
      }
      FindDoubleIs(pre + x, i);
    }
  }

  // Changing the end of a list leaves its head.
  lemma ConsInit(a: string, s: seq<string>, end: seq<string>)
    requires |s| >= 1
    ensures var c := [a] + s;
      c[|c| - 1] == s[|s| - 1] && c[..|c| - 1] + end == [a] + (s[..|s| - 1] + end)
  {}

  lemma Slices(pre: string, x: string, i: nat, j: nat)
    requires i <= |pre| && j <= |pre|
    ensures (pre + x)[..i] == pre[..i] && (pre + x)[j..] == pre[j..] + x
  {}

  lemma SplitsAt(t: string, i: nat)
    requires FindDouble(t) == i < |t|
    ensures SplitDouble(t) == [t[..i]] + SplitDouble(t[i + 2..])
  {}

  // The same parts, but for `x` at the end of the last.
  ghost predicate Longer(parts: seq<string>, more: seq<string>, x: string) {
    && |parts| == |more| >= 1 && more[|more| - 1] == parts[|parts| - 1] + x
    && forall k :: 0 <= k < |parts| - 1 ==> more[k] == parts[k]
  }

  lemma LongerCons(head: string, parts: seq<string>, more: seq<string>, x: string)
    requires Longer(parts, more, x)
    ensures Longer([head] + parts, [head] + more, x)
  {}

  lemma AppendStep(pre: string, all: string, x: string, i: nat)
    requires FindDouble(pre) == i < |pre| && FindDouble(all) == i && |all| >= |pre|
    requires all[..i] == pre[..i] && Longer(SplitDouble(pre[i + 2..]), SplitDouble(all[i + 2..]), x)
    ensures Longer(SplitDouble(pre), SplitDouble(all), x)
  {
    SplitsAt(pre, i);
    SplitsAt(all, i);
    LongerCons(pre[..i], SplitDouble(pre[i + 2..]), SplitDouble(all[i + 2..]), x);
  }

  // Whatever two groups end the text, splitting at "::" leaves them at the end of
  // the last part, and the rest as it was.
  lemma {:induction false} SplitDoubleAppend(pre: string, all: string, x: string)
    requires x != "" && x[0] != ':' && forall k :: 0 <= k < |x| - 1 ==> !DoubleAt(x, k)
    requires all == pre + x
    ensures Longer(SplitDouble(pre), SplitDouble(all), x)
    decreases |pre|
  {
    var i := FindDouble(pre);
    FindDoubleAppend(pre, x);
    if i < |pre| {
      Slices(pre, x, i, i + 2);
      SplitDoubleAppend(pre[i + 2..], all[i + 2..], x);
      AppendStep(pre, all, x, i);
    } else {
      assert SplitDouble(pre) == [pre] && SplitDouble(all) == [all];
    }
  }

  lemma {:induction false} SplitDoubleEnds(pre: string)
    requires EndsGroup(pre)
    ensures EndsGroup(SplitDouble(pre)[|SplitDouble(pre)| - 1])
    decreases |pre|
  {
    var i := FindDouble(pre);
    if i < |pre| {
      SplitDoubleEnds(pre[i + 2..]);
    }
  }

  lemma SplitHead(s: string, i: nat, c: char)
    requires i < |s| && s[i] == c && forall k :: 0 <= k < i ==> s[k] != c
    ensures Split(s, c) == [s[..i]] + Split(s[i + 1..], c)
  {
    assert IndexOf(s, c) == i;
  }

  // ... and splitting at ":" makes them the last two groups.
  lemma {:induction false} SplitAppend(q: string, h: string, l: string)
    requires EndsGroup(q) && TwoGroups(h, l)
    ensures var parts := Split(q, ':');
      Split(q + (h + ":" + l), ':') == parts[..|parts| - 1] + [h, l]
    decreases |q|
  {
    var x := h + ":" + l;
    if q == "" {
      SplitTwo(h, l);
      assert q + x == x && Split(q, ':') == [q];
    } else {
      var i := IndexOf(q, ':');
      assert q[|q| - 1] == ':';
      SplitHead(q, i, ':');
      SplitHead(q + x, i, ':');
      Slices(q, x, i, i + 1);
      SplitAppend(q[i + 1..], h, l);
      ConsInit(q[..i], Split(q[i + 1..], ':'), [h, l]);
    }
  }

  lemma SplitTwo(h: string, l: string)
    requires TwoGroups(h, l)
    ensures Split(h + ":" + l, ':') == [h, l]
  {
    SplitJoin([h, l], ':');
    assert [h, l][1..] == [l];
    assert Join([h, l], ':') == h + ":" + l;
  }

  lemma LongerIs(parts: seq<string>, more: seq<string>, x: string)
    requires Longer(parts, more, x)
    ensures more == parts[..|parts| - 1] + [parts[|parts| - 1] + x]
  {}

  // The text split and grouped: what stands before the last two groups depends on
  // the text before them alone.
  lemma GroupedEnd(pre: string, h: string, l: string) returns (init: seq<string>, qs: seq<string>, last: string)
    requires EndsGroup(pre) && TwoGroups(h, l)
    ensures init == SplitDouble(pre)[..|SplitDouble(pre)| - 1]
    ensures var q := Split(SplitDouble(pre)[|SplitDouble(pre)| - 1], ':'); qs == q[..|q| - 1]
    ensures SplitDouble(pre + (h + ":" + l)) == init + [last] && GroupsIn(last) == qs + [h, l]
  {
    TwoGroupsEnd(h, l);
    SplitDoubleAppend(pre, pre + (h + ":" + l), h + ":" + l);
    SplitDoubleEnds(pre);
    var q := SplitDouble(pre)[|SplitDouble(pre)| - 1];
    LongerIs(SplitDouble(pre), SplitDouble(pre + (h + ":" + l)), h + ":" + l);
    SplitAppend(q, h, l);
    init, qs, last := SplitDouble(pre)[..|SplitDouble(pre)| - 1], Split(q, ':')[..|Split(q, ':')| - 1], q + (h + ":" + l);
  }

  lemma EndOfEight(head: seq<string>, n: nat, qs: seq<string>, h: string, l: string)
    requires |head| + n + |qs| == 6
    ensures var g := head + Zeros(n) + (qs + [h, l]);
      |g| == 8 && g[6] == h && g[7] == l && g[..6] == head + Zeros(n) + qs
  {
    var g := head + Zeros(n) + (qs + [h, l]);
    assert g == (head + Zeros(n) + qs) + [h, l];
  }

  // The eight groups end with those two; other two would leave the first six.
  lemma GapFilledEnd(init: seq<string>, qs: seq<string>, last: string, h: string, l: string)
    requires V6Parts(init + [last]) && GroupsIn(last) == qs + [h, l]
    ensures |init| <= 1 && GapFilled(init + [last])[6] == h && GapFilled(init + [last])[7] == l
    ensures GapFilled(init + [last])[..6] ==
      if init == [] then qs else GroupsIn(init[0]) + Zeros(6 - |GroupsIn(init[0])| - |qs|) + qs
  {
    var parts := init + [last];
    if |parts| == 2 {
      var head := GroupsIn(init[0]);
      assert GapFilled(parts) == head + Zeros(8 - |head| - |qs + [h, l]|) + (qs + [h, l]);
      EndOfEight(head, 6 - |head| - |qs|, qs, h, l);
    } else {
      assert GapFilled(parts) == qs + [h, l];
    }
  }

  lemma SamePartsOk(init: seq<string>, qs: seq<string>, one: string, two: string, h: string, l: string, h': string, l': string)
    requires V6Parts(init + [one]) && GroupsIn(one) == qs + [h, l] && GroupsIn(two) == qs + [h', l']
    requires HexGroup(h') && HexGroup(l')
    ensures V6Parts(init + [two])
  {
    var parts, other := init + [one], init + [two];
    if |parts| == 1 {
      assert forall i :: 0 <= i < |qs| ==> GroupsIn(one)[i] == qs[i];
      assert GroupsIn(other[0]) == qs + [h', l'];
    } else {
      assert parts[1] == one && other[1] == two && other[0] == parts[0];
      assert forall i :: 0 <= i < |qs| ==> GroupsIn(parts[1])[i] == qs[i];
      assert GroupsIn(other[1]) == qs + [h', l'];
    }
  }

  lemma V4Below(address: string)
    requires IsV4(address)
    ensures ParseV4(address) < 0x1_0000_0000
  {
    var a, b, c, d := V4Spells(address);
  }

  lemma RenderedGroups(hi: nat, lo: nat)
    requires hi < 65536 && lo < 65536
    ensures TwoGroups(Render(16, hi), Render(16, lo)) && HexGroup(Render(16, hi)) && HexGroup(Render(16, lo))
    ensures Parse(16, Render(16, hi)) == hi && Parse(16, Render(16, lo)) == lo
  {
    PowerValues();
    RenderShape(16, hi);
    RenderShape(16, lo);
    RenderLength(16, hi, 4);
    RenderLength(16, lo, 4);
    RenderParse(16, hi);
    RenderParse(16, lo);
  }

  // The text with its dotted quad replaced by two zero groups.
  function Undotted(address: string): string {
    address[..LastColon(address) + 1] + ("0" + ":" + "0")
  }

  lemma UndottedHasNoDots(address: string)
    ensures '.' !in Tail(Undotted(address)) && ExpandDotted(Undotted(address)) == Undotted(address) && ':' in Undotted(address)
  {
    var pre := address[..LastColon(address) + 1];
    var t := Undotted(address);
    assert t[|pre|] == '0' && t[|pre| + 1] == ':' && t[|pre| + 2] == '0' && |t| == |pre| + 3;
    assert LastColon(t) == |pre| + 1;
    assert Tail(t) == "0";
  }

  lemma LastTwoGroups(v: seq<nat>, w: seq<nat>)
    requires |v| == |w| == 8 && v[..6] == w[..6] && w[6] == 0 && w[7] == 0
    ensures FromDigits(65536, v) == FromDigits(65536, w) + v[6] * 65536 + v[7]
  {
    FromEight(v);
    FromEight(w);
    assert forall i :: 0 <= i < 6 ==> v[i] == v[..6][i] && w[i] == w[..6][i];
  }

  lemma ZeroGroup()
    ensures TwoGroups("0", "0") && HexGroup("0") && AllDigits(16, "0") && Parse(16, "0") == 0
  {
    RenderedGroups(0, 0);
    assert Render(16, 0) == "0";
  }

  // Two zero groups in the place of the last two.
  ghost predicate ZeroedEnds(g: seq<string>, z: seq<string>, h: string, l: string) {
    |g| == |z| == 8 && g[6] == h && g[7] == l && z[..6] == g[..6] && z[6] == "0" && z[7] == "0"
  }

  lemma ZeroedEnd(pre: string, parts: seq<string>, zeroed: seq<string>, h: string, l: string)
    requires EndsGroup(pre) && TwoGroups(h, l)
    requires parts == SplitDouble(pre + (h + ":" + l)) && zeroed == SplitDouble(pre + ("0" + ":" + "0")) && V6Parts(parts)
    ensures V6Parts(zeroed) && ZeroedEnds(GapFilled(parts), GapFilled(zeroed), h, l)
  {
    ZeroGroup();
    var init, qs, one := GroupedEnd(pre, h, l);
    var init', qs', two := GroupedEnd(pre, "0", "0");
    SamePartsOk(init, qs, one, two, h, l, "0", "0");
    GapFilledEnd(init, qs, one, h, l);
    GapFilledEnd(init, qs, two, "0", "0");
  }

  // The number the parts around a "::" spell.
  function ValueOf(parts: seq<string>): nat
    requires V6Parts(parts)
  {
    FromDigits(65536, Values(16, GapFilled(parts)))
  }

  lemma V6IsParts(address: string, text: string)
    requires IsV6(address) && text == ExpandDotted(address)
    ensures V6Parts(SplitDouble(text)) && ParseV6(address) == ValueOf(SplitDouble(text))
  {}

  lemma PartsAreV6(text: string)
    requires ':' in text && '.' !in Tail(text) && V6Parts(SplitDouble(text))
    ensures IsV6(text) && ParseV6(text) == ValueOf(SplitDouble(text))
  {}

  lemma SumOfGroups(groups: seq<string>, plain: seq<string>, hi: nat, lo: nat)
    requires |groups| == |plain| == 8 && AllNumerals(16, groups) && AllNumerals(16, plain)
    requires plain[..6] == groups[..6] && plain[6] == "0" && plain[7] == "0"
    requires Parse(16, groups[6]) == hi && Parse(16, groups[7]) == lo
    ensures FromDigits(65536, Values(16, groups)) == FromDigits(65536, Values(16, plain)) + hi * 65536 + lo
    ensures FromDigits(65536, Values(16, plain)) % 0x1_0000_0000 == 0
  {
    ZeroGroup();
    assert forall i :: 0 <= i < 6 ==> plain[i] == plain[..6][i] && groups[i] == groups[..6][i];
    var v, w := Values(16, groups), Values(16, plain);
    assert v[..6] == w[..6];
    LastTwoGroups(v, w);
    FromEight(w);
    var q := ((((w[0] * 65536 + w[1]) * 65536 + w[2]) * 65536 + w[3]) * 65536 + w[4]) * 65536 + w[5];
    DivModUnique(FromDigits(65536, w), 0x1_0000_0000, q, 0);
  }

  lemma Halves(v: nat)
    requires v < 0x1_0000_0000
    ensures v / 65536 < 65536 && (v / 65536) * 65536 + v % 65536 == v
  {}

  lemma ExpandedText(address: string, h: string, l: string)
    requires '.' in Tail(address) && IsV4(Tail(address))
    requires h == Render(16, ParseV4(Tail(address)) / 65536) && l == Render(16, ParseV4(Tail(address)) % 65536)
    ensures ExpandDotted(address) == address[..LastColon(address) + 1] + (h + ":" + l)
  {}

  // The two groups of a quad.
  lemma QuadGroups(address: string) returns (hi: nat, lo: nat)
    requires IsV6(address) && '.' in Tail(address)
    ensures hi < 65536 && lo < 65536 && hi * 65536 + lo == ParseV4(Tail(address)) < 0x1_0000_0000
    ensures ExpandDotted(address) == address[..LastColon(address) + 1] + (Render(16, hi) + ":" + Render(16, lo))
  {
    var v4 := ParseV4(Tail(address));
    V4Below(Tail(address));
    Halves(v4);
    hi, lo := v4 / 65536, v4 % 65536;
    ExpandedText(address, Render(16, hi), Render(16, lo));
  }

  // Two groups at the end of the text, and two zeros in their place.
  lemma ZeroedValue(pre: string, text: string, zeroed: string, hi: nat, lo: nat)
    requires EndsGroup(pre) && hi < 65536 && lo < 65536
    requires text == pre + (Render(16, hi) + ":" + Render(16, lo)) && zeroed == pre + ("0" + ":" + "0")
    requires V6Parts(SplitDouble(text))
    ensures V6Parts(SplitDouble(zeroed))
    ensures ValueOf(SplitDouble(text)) == ValueOf(SplitDouble(zeroed)) + hi * 65536 + lo
    ensures ValueOf(SplitDouble(zeroed)) % 0x1_0000_0000 == 0
  {
    RenderedGroups(hi, lo);
    ZeroedEnd(pre, SplitDouble(text), SplitDouble(zeroed), Render(16, hi), Render(16, lo));
    SumOfGroups(GapFilled(SplitDouble(text)), GapFilled(SplitDouble(zeroed)), hi, lo);
  }

  lemma PreEndsGroup(address: string)
    ensures EndsGroup(address[..LastColon(address) + 1])
  {}

  lemma QuadRewritten(address: string)
    requires IsV6(address) && '.' in Tail(address)
    ensures IsV6(Undotted(address))
    ensures ParseV6(address) == ParseV6(Undotted(address)) + ParseV4(Tail(address))
    ensures ParseV6(Undotted(address)) % 0x1_0000_0000 == 0
  {
    var hi, lo := QuadGroups(address);
    V6IsParts(address, ExpandDotted(address));
    PreEndsGroup(address);
    ZeroedValue(address[..LastColon(address) + 1], ExpandDotted(address), Undotted(address), hi, lo);
    UndottedHasNoDots(address);
    PartsAreV6(Undotted(address));
  }

  // A dotted quad at the end of an IPv6 text adds its value to that of the text
  // with two zero groups in its place.
  lemma DottedAdds(address: string)
    requires IsV6(address) && '.' in Tail(address)
    ensures IsV6(Undotted(address)) && '.' !in Tail(Undotted(address))
    ensures ParseV6(address) == ParseV6(Undotted(address)) + ParseV4(Tail(address))
  {
    QuadRewritten(address);
    UndottedHasNoDots(address);
  }

  lemma LowBits(whole: nat, high: nat, low: nat)
    requires whole == high + low && high % 0x1_0000_0000 == 0 && low < 0x1_0000_0000
    ensures whole % 0x1_0000_0000 == low
  {
    DivModUnique(whole, 0x1_0000_0000, high / 0x1_0000_0000, low);
  }

  // So the low 32 bits of such a text are the quad.
  lemma DottedTailIsLow32(address: string)
    requires IsV6(address) && '.' in Tail(address)
    ensures ParseV6(address) % 0x1_0000_0000 == ParseV4(Tail(address))
  {
    QuadRewritten(address);
    V4Below(Tail(address));
    LowBits(ParseV6(address), ParseV6(Undotted(address)), ParseV4(Tail(address)));
  }

  lemma LastColonIs(t: string, i: int)
    requires -1 <= i < |t| && (i >= 0 ==> t[i] == ':') && forall k :: i < k < |t| ==> t[k] != ':'
    ensures LastColon(t) == i
  {}

  lemma QuadTail(pre: string, quad: string)
    requires EndsGroup(pre) && IsV4(quad)
    ensures LastColon(pre + quad) == |pre| - 1 && Tail(pre + quad) == quad && '.' in quad
  {
    V4HasNoColon(quad);
    V4HasDot(quad);
    forall k | |pre| <= k < |pre + quad| ensures (pre + quad)[k] != ':' {
      assert (pre + quad)[k] == quad[k - |pre|];
    }
    LastColonIs(pre + quad, |pre| - 1);
  }

  lemma V4HasDot(quad: string)
    requires IsV4(quad)
    ensures '.' in quad
  {
    assert IndexOf(quad, '.') < |quad|;
  }

  lemma QuadExpands(pre: string, quad: string) returns (h: string, l: string)
    requires EndsGroup(pre) && IsV4(quad)
    ensures '.' in Tail(pre + quad) && IsV4(Tail(pre + quad)) && ExpandDotted(pre + quad) == pre + (h + ":" + l)
    ensures TwoGroups(h, l) && HexGroup(h) && HexGroup(l)
  {
    QuadTail(pre, quad);
    V4Below(quad);
    Halves(ParseV4(quad));
    h, l := Render(16, ParseV4(quad) / 65536), Render(16, ParseV4(quad) % 65536);
    RenderedGroups(ParseV4(quad) / 65536, ParseV4(quad) % 65536);
    ExpandedText(pre + quad, h, l);
    assert (pre + quad)[..|pre|] == pre;
  }

  lemma ZerosUndotted(pre: string, quad: string)
    requires EndsGroup(pre) && IsV4(quad)
    ensures Undotted(pre + quad) == pre + "0:0" && '.' !in Tail(pre + "0:0")
    ensures ExpandDotted(pre + "0:0") == pre + "0:0"
  {
    QuadTail(pre, quad);
    Slices(pre, quad, |pre|, |pre|);
    ZeroText(pre);
    UndottedHasNoDots(pre + quad);
  }

  lemma ZeroText(pre: string)
    ensures pre + ("0" + ":" + "0") == pre + "0:0"
  {
    assert "0" + ":" + "0" == "0:0";
  }

  // A text that ends in two zero groups is an address with any quad in their place.
  lemma QuadInPlaceOfZeros(pre: string, quad: string)
    requires pre != "" && pre[|pre| - 1] == ':' && IsV4(quad) && IsV6(pre + "0:0")
    ensures IsV6(pre + quad) && '.' in Tail(pre + quad) && Undotted(pre + quad) == pre + "0:0"
  {
    ZerosUndotted(pre, quad);
    V6IsParts(pre + "0:0", pre + "0:0");
    ZeroText(pre);
    var h, l := QuadExpands(pre, quad);
    PartsWithGroups(pre, h, l);
    assert (pre + quad)[|pre| - 1] == ':';
  }

  lemma PartsWithGroups(pre: string, h: string, l: string)
    requires EndsGroup(pre) && TwoGroups(h, l) && HexGroup(h) && HexGroup(l) && V6Parts(SplitDouble(pre + ("0" + ":" + "0")))
    ensures V6Parts(SplitDouble(pre + (h + ":" + l)))
  {
    ZeroGroup();
    var init, qs, one := GroupedEnd(pre, "0", "0");
    var init', qs', two := GroupedEnd(pre, h, l);
    SamePartsOk(init, qs, one, two, "0", "0", h, l);
  }

  // ---- Prefix texts ------------------------------------------------------------------

  // What stands before the first slash, and between it and the next.
  function AddressPart(cidr: string): string {
    cidr[..IndexOf(cidr, '/')]
  }

  function LengthPart(cidr: string): string {
    var i := IndexOf(cidr, '/');
    if i == |cidr| then "" else cidr[i + 1..][..IndexOf(cidr[i + 1..], '/')]
  }

  lemma PartsAtSlash(cidr: string)
    ensures var parts := Split(cidr, '/');
      parts[0] == AddressPart(cidr) && (if |parts| > 1 then parts[1] else "") == LengthPart(cidr)
  {
    var i := IndexOf(cidr, '/');
    if i < |cidr| {
      var rest := cidr[i + 1..];
      assert Split(cidr, '/')[1] == Split(rest, '/')[0];
      assert Split(rest, '/')[0] == rest[..IndexOf(rest, '/')];
    }
  }

  // The text names an address of the family and a prefix length; no length reads
  // as zero.
  ghost predicate Names(cidr: string, f: Family, value: nat, prefix: nat) {
    && (f.V4? ==> IsV4(AddressPart(cidr)) && value == ParseV4(AddressPart(cidr)) && prefix <= 32)
    && (f.V6? ==> IsV6(AddressPart(cidr)) && value == ParseV6(AddressPart(cidr)) && prefix <= 128)
    && (LengthPart(cidr) == "" ==> prefix == 0)
    && (LengthPart(cidr) != "" ==> IsNumeral(10, LengthPart(cidr)) && prefix == Parse(10, LengthPart(cidr)))
  }

  lemma V4HasNoColon(address: string)
    requires IsV4(address)
    ensures ':' !in address
  {
    var parts := Split(address, '.');
    SplitIsJoin(address, '.');
    forall i, c | 0 <= i < |parts| && c in parts[i] ensures c != ':' {
      assert Octet(parts[i]);
      var k :| 0 <= k < |parts[i]| && parts[i][k] == c;
      assert IsDigit(10, parts[i][k]);
    }
    JoinLacks(parts, '.', ':');
  }

  lemma OneFamily(address: string)
    ensures !(IsV4(address) && IsV6(address))
  {
    if IsV4(address) {
      V4HasNoColon(address);
    }
  }

  // A text is read exactly if it names an address and a length.
  lemma ParsesIff(cidr: string, f: Family)
    ensures ParseCidr(cidr).Some? && ParseCidr(cidr).value.family == f <==>
      exists value: nat, prefix: nat :: Names(cidr, f, value, prefix)
  {
    PartsAtSlash(cidr);
    var address, length := AddressPart(cidr), LengthPart(cidr);
    OneFamily(address);
    if ParseCidr(cidr).Some? {
      var value := if IsV4(address) then ParseV4(address) else ParseV6(address);
      assert Names(cidr, ParseCidr(cidr).value.family, value, NumberOf(length).value);
    }
  }

  lemma ReadsNamed(cidr: string, f: Family, value: nat, prefix: nat)
    requires Names(cidr, f, value, prefix)
    ensures ParseCidr(cidr) == NetworkOf(f, value, prefix)
  {
    PartsAtSlash(cidr);
    OneFamily(AddressPart(cidr));
  }

  // The block read from a text: the addresses that agree with the one written in
  // all but the last bits - prefix bits, whatever those bits are in it.
  lemma ReadsBlock(cidr: string, f: Family, value: nat, prefix: nat)
    requires Names(cidr, f, value, prefix)
    ensures ParseCidr(cidr).Some? && ParseCidr(cidr).value.family == f
    ensures var r, size := ParseCidr(cidr).value.range, Pow2(Bits(f) - prefix);
      && r.start <= value <= r.end && r.end - r.start + 1 == size && r.start % size == 0
      && forall a: int :: r.start <= a <= r.end <==> a / size == value / size
  {
    ReadsNamed(cidr, f, value, prefix);
    var size := Pow2(Bits(f) - prefix);
    var start := NetworkStart(value, size);
    ModMultiple(value / size, size);
    forall a: int ensures start <= a <= start + size - 1 <==> a / size == value / size {
      SameQuotient(a, value, size);
    }
    assert value / size == value / size;
  }

  lemma SameQuotient(a: int, value: nat, size: nat)
    requires size > 0
    ensures value / size * size <= a <= value / size * size + size - 1 <==> a / size == value / size
  {
    var q := value / size;
    if q * size <= a <= q * size + size - 1 {
      DivModUnique(a, size, q, a - q * size);
    }
    if a / size == q {
      assert a == q * size + a % size;
    }
  }

  // ---- Lower case ---------------------------------------------------------------------

  predicate LowerHex(c: char) {
    '0' <= c <= '9' || 'a' <= c <= 'f'
  }

  lemma {:induction false} RenderIsLower(b: nat, n: nat)
    requires 2 <= b <= 16
    ensures forall c :: c in Render(b, n) ==> LowerHex(c)
    decreases n
  {
    if n >= b {
      DivPositive(n, b);
      RenderIsLower(b, n / b);
    }
  }

  lemma {:induction false} JoinIsLower(groups: seq<string>)
    requires forall i, c :: 0 <= i < |groups| && c in groups[i] ==> LowerHex(c)
    ensures forall c :: c in Join(groups, ':') ==> c == ':' || LowerHex(c)
    decreases |groups|
  {
    if |groups| > 1 {
      JoinIsLower(groups[1..]);
    } else if |groups| == 1 {
      assert forall c :: c in groups[0] ==> LowerHex(c);
    }
  }

  // Printed IPv6 addresses use lower case and colons only (section 4.3 of RFC
  // 5952).
  lemma V6PrintsLowerCase(value: nat)
    ensures forall c :: c in FormatAddress(V6, value) ==> c == ':' || LowerHex(c)
  {
    var groups := HexGroups(value);
    forall i, c | 0 <= i < |groups| && c in groups[i] ensures LowerHex(c) {
      RenderIsLower(16, ToDigits(65536, 8, value)[i]);
    }
    var run := ZeroRunOf(groups);
    CompressesFirstLongestRun(groups);
    JoinIsLower(groups);
    if run.start >= 0 {
      JoinIsLower(groups[..run.start]);
      JoinIsLower(groups[run.start + run.length..]);
    }
  }
}
