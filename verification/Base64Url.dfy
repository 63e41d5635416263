// Bytes as base64url text without padding (section 5 of RFC 4648), the way the
// panel makes it: standard base64, two characters replaced, padding cut off.
module Base64Url {
  import opened Powers

  type Byte = b: nat | b < 256

  function Symbol(n: nat): char
    requires n < 64
  {
    if n < 26 then 'A' + n as char
    else if n < 52 then 'a' + (n - 26) as char
    else if n < 62 then '0' + (n - 52) as char
    else if n == 62 then '+' else '/'
  }

  // The decoder takes both alphabets; -1 for anything else, which it skips.
  function Value(c: char): (v: int)
    ensures -1 <= v < 64
  {
    if 'A' <= c <= 'Z' then c as int - 'A' as int
    else if 'a' <= c <= 'z' then c as int - 'a' as int + 26
    else if '0' <= c <= '9' then c as int - '0' as int + 52
    else if c == '+' || c == '-' then 62
    else if c == '/' || c == '_' then 63
    else -1
  }

  // ---- Groups of three bytes and four sextets -----------------------------------

  function Sextets(bytes: seq<Byte>): (s: seq<nat>)
    ensures forall i :: 0 <= i < |s| ==> s[i] < 64
  {
    if bytes == [] then []
    else if |bytes| == 1 then [bytes[0] / 4, bytes[0] % 4 * 16]
    else if |bytes| == 2 then [bytes[0] / 4, bytes[0] % 4 * 16 + bytes[1] / 16, bytes[1] % 16 * 4]
    else
      [bytes[0] / 4, bytes[0] % 4 * 16 + bytes[1] / 16, bytes[1] % 16 * 4 + bytes[2] / 64, bytes[2] % 64]
      + Sextets(bytes[3..])
  }

  // Bits left over at the end are dropped, as is a single trailing sextet.
  function Octets(s: seq<nat>): seq<Byte>
    requires forall i :: 0 <= i < |s| ==> s[i] < 64
  {
    if |s| < 2 then []
    else if |s| == 2 then [s[0] * 4 + s[1] / 16]
    else if |s| == 3 then [s[0] * 4 + s[1] / 16, s[1] % 16 * 16 + s[2] / 4]
    else [s[0] * 4 + s[1] / 16, s[1] % 16 * 16 + s[2] / 4, s[2] % 4 * 64 + s[3]] + Octets(s[4..])
  }

  lemma GroupReadsBack(a: Byte, b: Byte, c: Byte)
    ensures a / 4 * 4 + (a % 4 * 16 + b / 16) / 16 == a
    ensures (a % 4 * 16 + b / 16) % 16 * 16 + (b % 16 * 4 + c / 64) / 4 == b
    ensures (b % 16 * 4 + c / 64) % 4 * 64 + c % 64 == c
    ensures a / 4 * 4 + (a % 4 * 16) / 16 == a
    ensures (a % 4 * 16 + b / 16) % 16 * 16 + (b % 16 * 4) / 4 == b
  {}

  lemma FourReadBack(a: Byte, b: Byte, c: Byte, s0: nat, s1: nat, s2: nat, s3: nat)
    requires s0 == a / 4 && s1 == a % 4 * 16 + b / 16 && s2 == b % 16 * 4 + c / 64 && s3 == c % 64
    ensures s0 * 4 + s1 / 16 == a && s1 % 16 * 16 + s2 / 4 == b && s2 % 4 * 64 + s3 == c
  {
    GroupReadsBack(a, b, c);
  }

  lemma OctetsOfFour(s: seq<nat>)
    requires |s| >= 4 && forall i :: 0 <= i < |s| ==> s[i] < 64
    ensures Octets(s) ==
      [s[0] * 4 + s[1] / 16, s[1] % 16 * 16 + s[2] / 4, s[2] % 4 * 64 + s[3]] + Octets(s[4..])
  {}

  lemma SextetsOfThree(bytes: seq<Byte>)
    requires |bytes| >= 3
    ensures var s := Sextets(bytes);
      && |s| >= 4 && s[4..] == Sextets(bytes[3..])
      && s[0] == bytes[0] / 4 && s[1] == bytes[0] % 4 * 16 + bytes[1] / 16
      && s[2] == bytes[1] % 16 * 4 + bytes[2] / 64 && s[3] == bytes[2] % 64
  {}

  lemma ThreeReadBack(s: seq<nat>, bytes: seq<Byte>)
    requires |s| >= 4 && (forall i :: 0 <= i < |s| ==> s[i] < 64) && |bytes| >= 3
    requires s[0] * 4 + s[1] / 16 == bytes[0] && s[1] % 16 * 16 + s[2] / 4 == bytes[1]
    requires s[2] % 4 * 64 + s[3] == bytes[2] && Octets(s[4..]) == bytes[3..]
    ensures Octets(s) == bytes
  {
    OctetsOfFour(s);
    assert bytes == [bytes[0], bytes[1], bytes[2]] + bytes[3..];
  }

  lemma {:induction false} OctetsOfSextets(bytes: seq<Byte>)
    ensures Octets(Sextets(bytes)) == bytes
  {
    if bytes != [] {
      if |bytes| == 1 {
        GroupReadsBack(bytes[0], 0, 0);
      } else if |bytes| == 2 {
        GroupReadsBack(bytes[0], bytes[1], 0);
      } else {
        var s := Sextets(bytes);
        OctetsOfSextets(bytes[3..]);
        SextetsOfThree(bytes);
        FourReadBack(bytes[0], bytes[1], bytes[2], s[0], s[1], s[2], s[3]);
        ThreeReadBack(s, bytes);
      }
    }
  }

  // ---- Text -----------------------------------------------------------------------

  function Symbols(s: seq<nat>): (text: string)
    requires forall i :: 0 <= i < |s| ==> s[i] < 64
    ensures |text| == |s|
  {
    if s == [] then "" else [Symbol(s[0])] + Symbols(s[1..])
  }

  function Padding(n: nat): string {
    if n % 3 == 1 then "==" else if n % 3 == 2 then "=" else ""
  }

  function ToBase64(bytes: seq<Byte>): string {
    Symbols(Sextets(bytes)) + Padding(|bytes|)
  }

  // One pass of a global character replacement.
  function Replace(text: string, c: char, d: char): (out: string)
    ensures |out| == |text|
    ensures forall i :: 0 <= i < |text| ==> out[i] == if text[i] == c then d else text[i]
  {
    seq(|text|, i requires 0 <= i < |text| => if text[i] == c then d else text[i])
  }

  function CutPadding(text: string): string
    decreases |text|
  {
    if text != "" && text[|text| - 1] == '=' then CutPadding(text[..|text| - 1]) else text
  }

  function ToBase64Url(bytes: seq<Byte>): string {
    CutPadding(Replace(Replace(ToBase64(bytes), '+', '-'), '/', '_'))
  }

  function Values(text: string): (s: seq<nat>)
    ensures forall i :: 0 <= i < |s| ==> s[i] < 64
  {
    if text == "" then []
    else (if Value(text[0]) >= 0 then [Value(text[0])] else []) + Values(text[1..])
  }

  function FromBase64(text: string): seq<Byte> {
    Octets(Values(text))
  }

  predicate UrlSafe(c: char) {
    'A' <= c <= 'Z' || 'a' <= c <= 'z' || '0' <= c <= '9' || c == '-' || c == '_'
  }

  lemma SymbolReadsBack(n: nat)
    requires n < 64
    ensures Value(Symbol(n)) == n && Symbol(n) != '='
    ensures n < 62 ==> UrlSafe(Symbol(n)) && Symbol(n) != '+' && Symbol(n) != '/'
  {}

  function Replaced(text: string): string {
    Replace(Replace(text, '+', '-'), '/', '_')
  }

  // Replacement keeps the values and leaves only the URL-safe alphabet.
  lemma {:induction false} ReplacedSymbols(s: seq<nat>)
    requires forall i :: 0 <= i < |s| ==> s[i] < 64
    ensures Values(Replaced(Symbols(s))) == s
    ensures forall c :: c in Replaced(Symbols(s)) ==> UrlSafe(c)
  {
    if s != [] {
      var text := Symbols(s);
      SymbolReadsBack(s[0]);
      ReplacedSymbols(s[1..]);
      assert text[1..] == Symbols(s[1..]);
      assert Replaced(text)[1..] == Replaced(Symbols(s[1..]));
      assert UrlSafe(Replaced(text)[0]) && Value(Replaced(text)[0]) == s[0];
      assert Replaced(text) == [Replaced(text)[0]] + Replaced(text)[1..];
    }
  }

  lemma OnePadCut(text: string)
    ensures CutPadding(text + "=") == CutPadding(text)
  {
    assert (text + "=")[..|text|] == text;
  }

  lemma PaddingCut(text: string, n: nat)
    requires forall c :: c in text ==> UrlSafe(c)
    ensures CutPadding(text + Padding(n)) == text
  {
    assert text != "" ==> text[|text| - 1] in text;
    assert CutPadding(text) == text;
    OnePadCut(text);
    OnePadCut(text + "=");
    assert text + "==" == (text + "=") + "=";
    assert text + "" == text;
  }

  lemma ToBase64UrlIs(bytes: seq<Byte>)
    ensures ToBase64Url(bytes) == Replaced(Symbols(Sextets(bytes)))
  {
    var text, pad := Symbols(Sextets(bytes)), Padding(|bytes|);
    ReplacedSymbols(Sextets(bytes));
    assert Replaced(text + pad) == Replaced(text) + pad;
    PaddingCut(Replaced(text), |bytes|);
  }

  // The URL-safe alphabet (table 2 of RFC 4648).
  function UrlSymbol(n: nat): char
    requires n < 64
  {
    if n < 26 then 'A' + n as char
    else if n < 52 then 'a' + (n - 26) as char
    else if n < 62 then '0' + (n - 52) as char
    else if n == 62 then '-' else '_'
  }

  lemma {:induction false} SymbolsAt(s: seq<nat>, i: nat)
    requires i < |s| && forall k :: 0 <= k < |s| ==> s[k] < 64
    ensures Symbols(s)[i] == Symbol(s[i])
    decreases |s|
  {
    if i > 0 {
      SymbolsAt(s[1..], i - 1);
    }
  }

  lemma UrlText(s: seq<nat>)
    requires forall i :: 0 <= i < |s| ==> s[i] < 64
    ensures |Replaced(Symbols(s))| == |s|
    ensures forall i :: 0 <= i < |s| ==> Replaced(Symbols(s))[i] == UrlSymbol(s[i])
  {
    forall i | 0 <= i < |s| ensures Replaced(Symbols(s))[i] == UrlSymbol(s[i]) {
      SymbolsAt(s, i);
    }
  }

  // The decoder knows both alphabets and skips everything else.
  lemma DecoderAlphabet(n: nat, c: char)
    requires n < 64
    ensures Value(Symbol(n)) == n && Value(UrlSymbol(n)) == n
    ensures Value(c) >= 0 <==> UrlSafe(c) || c == '+' || c == '/'
  {}

  // The 24 bits of three bytes, six at a time from the highest.
  lemma SixAtATime(a: nat, b: nat, c: nat)
    requires a < 256 && b < 256 && c < 256
    ensures var bits := a * 0x1_0000 + b * 0x100 + c;
      && bits / 0x4_0000 == a / 4 < 64 && bits / 0x1000 % 64 == a % 4 * 16 + b / 16
      && bits / 64 % 64 == b % 16 * 4 + c / 64 && bits % 64 == c % 64
  {
    var bits := a * 0x1_0000 + b * 0x100 + c;
    DivModUnique(bits, 0x4_0000, a / 4, a % 4 * 0x1_0000 + b * 0x100 + c);
    DivModUnique(bits, 0x1000, a * 16 + b / 16, b % 16 * 0x100 + c);
    DivModUnique(a * 16 + b / 16, 64, a / 4, a % 4 * 16 + b / 16);
    DivModUnique(bits, 64, a * 1024 + b * 4 + c / 64, c % 64);
    DivModUnique(a * 1024 + b * 4 + c / 64, 64, a * 16 + b / 16, b % 16 * 4 + c / 64);
  }

  // Three bytes become four characters; one or two at the end become two or
  // three, the missing bits zero.
  lemma ThreeBytes(a: Byte, b: Byte, c: Byte, rest: seq<Byte>)
    ensures var text, bits := ToBase64Url([a, b, c] + rest), a as nat * 0x1_0000 + b as nat * 0x100 + c as nat;
      && |text| == 4 + |ToBase64Url(rest)| && text[4..] == ToBase64Url(rest)
      && text[0] == UrlSymbol(bits / 0x4_0000) && text[1] == UrlSymbol(bits / 0x1000 % 64)
      && text[2] == UrlSymbol(bits / 64 % 64) && text[3] == UrlSymbol(bits % 64)
  {
    var bytes := [a, b, c] + rest;
    assert bytes[3..] == rest;
    ToBase64UrlIs(bytes);
    ToBase64UrlIs(rest);
    SixAtATime(a, b, c);
    SextetsOfThree(bytes);
    UrlText(Sextets(bytes));
    UrlText(Sextets(rest));
  }

  lemma EndBytes(a: Byte, b: Byte)
    ensures ToBase64Url([]) == ""
    ensures var text := ToBase64Url([a]);
      |text| == 2 && text[0] == UrlSymbol(a / 4) && text[1] == UrlSymbol(a % 4 * 16)
    ensures var text := ToBase64Url([a, b]);
      && |text| == 3 && text[0] == UrlSymbol(a / 4) && text[1] == UrlSymbol(a % 4 * 16 + b / 16)
      && text[2] == UrlSymbol(b % 16 * 4)
  {
    ToBase64UrlIs([]);
    ToBase64UrlIs([a]);
    ToBase64UrlIs([a, b]);
    UrlText(Sextets([a]));
    UrlText(Sextets([a, b]));
  }

  // Encoding reads back, in URL-safe characters and without padding.
  lemma Base64UrlRoundTrip(bytes: seq<Byte>)
    ensures FromBase64(ToBase64Url(bytes)) == bytes
    ensures forall c :: c in ToBase64Url(bytes) ==> UrlSafe(c)
    ensures bytes != [] ==> ToBase64Url(bytes) != ""
  {
    ToBase64UrlIs(bytes);
    ReplacedSymbols(Sextets(bytes));
    OctetsOfSextets(bytes);
  }

  // The panel puts the standard characters back before decoding; the decoder
  // would have taken either.
  lemma {:induction false} StandardCharactersSame(text: string)
    ensures FromBase64(Replace(Replace(text, '-', '+'), '_', '/')) == FromBase64(text)
  {
    ValuesSame(text);
  }

  lemma {:induction false} ValuesSame(text: string)
    ensures Values(Replace(Replace(text, '-', '+'), '_', '/')) == Values(text)
  {
    if text != "" {
      var out := Replace(Replace(text, '-', '+'), '_', '/');
      ValuesSame(text[1..]);
      assert out[1..] == Replace(Replace(text[1..], '-', '+'), '_', '/');
    }
  }
}
