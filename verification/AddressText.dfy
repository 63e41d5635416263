// The printed form of addresses and prefixes, and the parser that reads it
// back: dotted quads for IPv4; colon-separated hexadecimal groups with one
// zero run compressed to "::" for IPv6 (sections 4.2.2 and 4.2.3 of RFC 5952,
// over the forms of section 2.2 of RFC 4291).
module AddressText {
  import opened Options
  import opened Powers
  import opened Numerals
  import opened Prefixes
  import opened Ranges

  datatype Family = V4 | V6
  function Bits(f: Family): nat {
    if f.V4? then 32 else 128
  }

  // ---- What counts as an address text (the `isIP` of the runtime) ---------------

  predicate Octet(s: string) {
    IsNumeral(10, s) && |s| <= 3 && (|s| > 1 ==> s[0] != '0') && Parse(10, s) <= 255
  }

  predicate HexGroup(s: string) {
    IsNumeral(16, s) && |s| <= 4
  }

  predicate IsV4(text: string) {
    var parts := Split(text, '.');
    |parts| == 4 && forall i :: 0 <= i < 4 ==> Octet(parts[i])
  }

  // The last ":" of the text, or -1.
  function LastColon(text: string): (i: int)
    ensures -1 <= i < |text|
    ensures i >= 0 ==> text[i] == ':'
    ensures forall k :: i < k < |text| ==> text[k] != ':'
  {
    if text == [] then -1
    else if text[|text| - 1] == ':' then |text| - 1
    else LastColon(text[..|text| - 1])
  }

  function Tail(text: string): string {
    text[LastColon(text) + 1..]
  }

  // An embedded dotted quad rewritten as the last two groups.
  function ExpandDotted(text: string): string
    requires '.' in Tail(text) ==> IsV4(Tail(text))
  {
    if '.' in Tail(text) then
      var v4 := ParseV4(Tail(text));
      text[..LastColon(text) + 1] + Render(16, v4 / 65536) + ":" + Render(16, v4 % 65536)
    else text
  }

  predicate DoubleAt(t: string, k: int) {
    0 <= k && k + 1 < |t| && t[k] == ':' && t[k + 1] == ':'
  }

  // Split at every "::", left to right.
  function FindDouble(t: string): (i: nat)
    ensures i <= |t|
    ensures forall k :: 0 <= k < i ==> !DoubleAt(t, k)
    ensures i < |t| ==> DoubleAt(t, i)
  {
    if |t| < 2 then |t|
    else if t[0] == ':' && t[1] == ':' then 0
    else
      assert forall k :: 1 <= k ==> DoubleAt(t, k) == DoubleAt(t[1..], k - 1);
      1 + FindDouble(t[1..])
  }

  function SplitDouble(t: string): (parts: seq<string>)
    ensures |parts| >= 1
    decreases |t|
  {
    var i := FindDouble(t);
    if i == |t| then [t] else [t[..i]] + SplitDouble(t[i + 2..])
  }

  function GroupsIn(s: string): seq<string> {
    if s == "" then [] else Split(s, ':')
  }

  ghost predicate AllHex(groups: seq<string>) {
    forall i :: 0 <= i < |groups| ==> HexGroup(groups[i])
  }

  // Eight groups, or fewer on either side of one gap.
  predicate V6Parts(parts: seq<string>) {
    && |parts| >= 1
    && var head := GroupsIn(parts[0]);
       && (forall i :: 0 <= i < |head| ==> HexGroup(head[i]))
       && if |parts| == 1 then |head| == 8
          else
            var rest := GroupsIn(parts[1]);
            && |parts| == 2 && |head| + |rest| <= 7
            && forall i :: 0 <= i < |rest| ==> HexGroup(rest[i])
  }

  predicate IsV6(text: string) {
    && ':' in text
    && ('.' in Tail(text) ==> IsV4(Tail(text)))
    && V6Parts(SplitDouble(ExpandDotted(text)))
  }

  // ---- Parsing -------------------------------------------------------------------

  ghost predicate AllNumerals(b: nat, parts: seq<string>) {
    forall i {:trigger parts[i]} :: 0 <= i < |parts| ==> IsNumeral(b, parts[i])
  }

  function Values(b: nat, parts: seq<string>): (vs: seq<nat>)
    requires AllNumerals(b, parts)
    ensures |vs| == |parts|
    ensures forall i {:trigger vs[i]} {:trigger parts[i]} :: 0 <= i < |parts| ==> vs[i] == Parse(b, parts[i])
  {
    seq(|parts|, i requires 0 <= i < |parts| => Parse(b, parts[i]))
  }

  // Fold of (value << 8) | octet.
  function ParseV4(address: string): nat
    requires IsV4(address)
  {
    FromDigits(256, Values(10, Split(address, '.')))
  }

  function Zeros(n: nat): (z: seq<string>)
    ensures |z| == n && forall i :: 0 <= i < n ==> z[i] == "0"
  {
    seq(n, _ => "0")
  }

  // The eight groups, with the "::" gap filled by zeros.
  function GapFilled(parts: seq<string>): (groups: seq<string>)
    requires V6Parts(parts)
    ensures |groups| == 8 && AllHex(groups)
  {
    var head := GroupsIn(parts[0]);
    if |parts| == 1 then head
    else
      var rest := GroupsIn(parts[1]);
      assert HexGroup("0") by { assert IsDigit(16, "0"[0]); }
      head + Zeros(8 - |head| - |rest|) + rest
  }

  function GroupsOf(address: string): (groups: seq<string>)
    requires IsV6(address)
    ensures |groups| == 8 && AllHex(groups)
  {
    GapFilled(SplitDouble(ExpandDotted(address)))
  }

  function ParseV6(address: string): nat
    requires IsV6(address)
  {
    FromDigits(65536, Values(16, GroupsOf(address)))
  }

  // `Number(text)` on what follows the slash: the empty text is 0, a run of
  // decimal digits is its value.
  function NumberOf(text: string): Option<nat> {
    if text == "" then Some(0)
    else if IsNumeral(10, text) then Some(Parse(10, text))
    else None
  }

  datatype FamilyRange = FamilyRange(family: Family, range: Range)

  // (value >> hostBits) << hostBits.
  function NetworkStart(value: nat, size: nat): nat
    requires size > 0
  {
    DivNonneg(value, size);
    MulGe(value / size, size);
    value / size * size
  }

  function NetworkOf(f: Family, value: nat, prefix: nat): Option<FamilyRange> {
    if prefix > Bits(f) then None
    else
      var size := Pow2(Bits(f) - prefix);
      var start := NetworkStart(value, size);
      Some(FamilyRange(f, Range(start, start + size - 1)))
  }

  function ParseCidr(cidr: string): Option<FamilyRange> {
    var parts := Split(cidr, '/');
    var address := parts[0];
    var prefix := NumberOf(if |parts| > 1 then parts[1] else "");
    if IsV4(address) then
      if prefix.None? then None else NetworkOf(V4, ParseV4(address), prefix.value)
    else if IsV6(address) then
      if prefix.None? then None else NetworkOf(V6, ParseV6(address), prefix.value)
    else None
  }

  // ---- Printing ------------------------------------------------------------------

  function RunEnd(groups: seq<string>, i: nat): (e: nat)
    requires i <= |groups|
    ensures i <= e <= |groups| && (e < |groups| ==> groups[e] != "0")
    ensures forall k :: i <= k < e ==> groups[k] == "0"
    ensures i < |groups| && groups[i] == "0" ==> i < e
    decreases |groups| - i
  {
    if i < |groups| && groups[i] == "0" then RunEnd(groups, i + 1) else i
  }

  datatype Run = Run(start: int, length: nat)

  // The longest run of zero groups from `index` on that beats `best`.
  function BestRun(groups: seq<string>, index: nat, best: Run): Run
    requires index <= |groups|
    decreases |groups| - index
  {
    if index == |groups| then best
    else if groups[index] != "0" then BestRun(groups, index + 1, best)
    else
      var end := RunEnd(groups, index);
      BestRun(groups, end, if end - index > best.length then Run(index, end - index) else best)
  }

  function ZeroRunOf(groups: seq<string>): Run {
    BestRun(groups, 0, Run(-1, 1))
  }

  ghost predicate IsZeroRun(groups: seq<string>, i: int, j: int) {
    0 <= i < j <= |groups| && forall k :: i <= k < j ==> groups[k] == "0"
  }

  // `best` is the first longest run of at least two zero groups that starts
  // before `index`, or there is none.
  ghost predicate FirstLongest(groups: seq<string>, index: int, best: Run) {
    && best.length >= 1
    && (best.start < 0 ==> best.length == 1)
    && (best.start >= 0 ==> best.length >= 2 && IsZeroRun(groups, best.start, best.start + best.length))
    && forall i, j :: IsZeroRun(groups, i, j) && i < index ==>
         j - i <= best.length && (j - i == best.length && best.start >= 0 ==> best.start <= i)
  }

  lemma {:induction false} BestRunIsFirstLongest(groups: seq<string>, index: nat, best: Run)
    requires index <= |groups| && best.start < index && FirstLongest(groups, index, best)
    requires 0 < index < |groups| ==> groups[index - 1] != "0" || groups[index] != "0"
    ensures FirstLongest(groups, |groups|, BestRun(groups, index, best))
    decreases |groups| - index
  {
    if index < |groups| {
      if groups[index] != "0" {
        BestRunIsFirstLongest(groups, index + 1, best);
      } else {
        var end := RunEnd(groups, index);
        var next := if end - index > best.length then Run(index, end - index) else best;
        forall i, j | IsZeroRun(groups, i, j) && i < end
          ensures j - i <= next.length && (j - i == next.length && next.start >= 0 ==> next.start <= i)
        {
          assert end < |groups| ==> groups[end] != "0";
        }
        BestRunIsFirstLongest(groups, end, next);
      }
    }
  }

  // The compressed run is the first longest run of two or more zero groups.
  lemma CompressesFirstLongestRun(groups: seq<string>)
    ensures FirstLongest(groups, |groups|, ZeroRunOf(groups))
  {
    BestRunIsFirstLongest(groups, 0, Run(-1, 1));
  }

  function FormatV4(value: nat): string {
    var ds := ToDigits(256, 4, value);
    Join([Render(10, ds[0]), Render(10, ds[1]), Render(10, ds[2]), Render(10, ds[3])], '.')
  }

  function HexGroups(value: nat): (groups: seq<string>)
    ensures |groups| == 8
  {
    seq(8, i requires 0 <= i < 8 => Render(16, ToDigits(65536, 8, value)[i]))
  }

  function FormatGroups(groups: seq<string>): string {
    var run := ZeroRunOf(groups);
    CompressesFirstLongestRun(groups);
    if run.start < 0 then Join(groups, ':')
    else Join(groups[..run.start], ':') + "::" + Join(groups[run.start + run.length..], ':')
  }

  function FormatAddress(f: Family, value: nat): string {
    if f.V4? then FormatV4(value) else FormatGroups(HexGroups(value))
  }

  // The search loop of `formatAddress`.
  lemma BestRunStep(groups: seq<string>, index: nat, best: Run)
    requires index < |groups|
    ensures groups[index] != "0" ==> BestRun(groups, index, best) == BestRun(groups, index + 1, best)
    ensures groups[index] == "0" ==>
      var end := RunEnd(groups, index);
      BestRun(groups, index, best) == BestRun(groups, end, if end - index > best.length then Run(index, end - index) else best)
  {}

  method PrintAddress(f: Family, value: nat) returns (text: string)
    ensures text == FormatAddress(f, value)
  {
    if f.V4? {
      return FormatV4(value);
    }
    text := PrintGroups(HexGroups(value));
  }

  method PrintGroups(groups: seq<string>) returns (text: string)
    requires |groups| == 8
    ensures text == FormatGroups(groups)
  {
    var bestStart, bestLength, index := -1, 1, 0;
    while index < 8
      invariant 0 <= index <= 8
      invariant bestLength >= 1
      invariant BestRun(groups, index, Run(bestStart, bestLength)) == ZeroRunOf(groups)
    {
      BestRunStep(groups, index, Run(bestStart, bestLength));
      if groups[index] != "0" {
        index := index + 1;
        continue;
      }
      var end := index;
      while end < 8 && groups[end] == "0"
        invariant index <= end <= 8
        invariant RunEnd(groups, end) == RunEnd(groups, index)
      {
        end := end + 1;
      }
      if end - index > bestLength {
        bestStart, bestLength := index, end - index;
      }
      index := end;
    }
    CompressesFirstLongestRun(groups);
    if bestStart < 0 {
      return Join(groups, ':');
    }
    var head := Join(groups[..bestStart], ':');
    var tail := Join(groups[bestStart + bestLength..], ':');
    return head + "::" + tail;
  }

  function FormatCidr(f: Family, p: Prefix): string
    requires p.host <= Bits(f)
  {
    FormatAddress(f, p.base) + "/" + Render(10, Bits(f) - p.host)
  }
}
