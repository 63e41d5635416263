// Positional numerals and the string splitting they are read back with.
module Numerals {
  import opened Powers

  function Pow(b: nat, n: nat): (p: nat)
    ensures b > 0 ==> p > 0
  {
    if n == 0 then 1 else (var q := Pow(b, n - 1); if b > 0 then MulGe(b, q); b * q else 0)
  }

  // ---- Fixed-width digits ------------------------------------------------------

  // The `n` base-`b` digits of `v`, most significant first: (v >> shift) & mask.
  function ToDigits(b: nat, n: nat, v: nat): (ds: seq<nat>)
    requires b > 0
    ensures |ds| == n
    ensures forall i :: 0 <= i < n ==> ds[i] < b
  {
    seq(n, i requires 0 <= i < n => (v / Pow(b, n - 1 - i)) % b)
  }

  function FromDigits(b: nat, ds: seq<nat>): nat {
    if ds == [] then 0 else FromDigits(b, ds[..|ds| - 1]) * b + ds[|ds| - 1]
  }

  lemma DivDiv(v: nat, b: nat, c: nat)
    requires b > 0 && c > 0
    ensures b * c > 0 && v / (b * c) == (v / b) / c
  {
    MulGe(c, b);
    assert b * c == c * b;
    var q1, r1 := v / b, v % b;
    var q2, r2 := q1 / c, q1 % c;
    var r := r2 * b + r1;
    assert v == q1 * b + r1 && q1 == q2 * c + r2;
    assert q1 * b == (q2 * c) * b + r2 * b;
    assert (q2 * c) * b == q2 * (b * c) by { MulAssoc(q2, c, b); }
    assert r2 * b >= 0 by { MulGe(r2, b); }
    assert (c - 1 - r2) * b >= 0 by { MulGe(c - 1 - r2, b); }
    assert (c - 1 - r2) * b == c * b - b - r2 * b;
    DivModUnique(v, b * c, q2, r);
  }

  lemma DigitsPrefix(b: nat, n: nat, v: nat)
    requires b > 1 && n > 0
    ensures ToDigits(b, n, v)[..n - 1] == ToDigits(b, n - 1, v / b)
    ensures ToDigits(b, n, v)[n - 1] == v % b
  {
    var ds := ToDigits(b, n, v);
    forall i | 0 <= i < n - 1 ensures ds[i] == ToDigits(b, n - 1, v / b)[i] {
      DivDiv(v, b, Pow(b, n - 2 - i));
      assert Pow(b, n - 1 - i) == b * Pow(b, n - 2 - i);
    }
    assert Pow(b, 0) == 1;
  }

  lemma DivBelow(v: nat, b: nat, p: nat)
    requires b > 0 && v < b * p
    ensures v / b < p
  {
    var m := v / b;
    assert v == m * b + v % b && (m - p) * b == m * b - b * p;
  }

  lemma {:induction false} DigitsRoundTrip(b: nat, n: nat, v: nat)
    requires b > 1 && v < Pow(b, n)
    ensures FromDigits(b, ToDigits(b, n, v)) == v
    decreases n
  {
    if n == 0 {
      assert Pow(b, 0) == 1 && ToDigits(b, 0, v) == [];
    } else {
      DigitsPrefix(b, n, v);
      DivBelow(v, b, Pow(b, n - 1));
      DigitsRoundTrip(b, n - 1, v / b);
      LastDigit(b, ToDigits(b, n, v), v);
    }
  }

  lemma LastDigit(b: nat, ds: seq<nat>, v: nat)
    requires b > 1 && ds != [] && ds[|ds| - 1] == v % b && FromDigits(b, ds[..|ds| - 1]) == v / b
    ensures FromDigits(b, ds) == v
  {
    DivMod(v, b);
    MulCommutes(v / b, b);
  }

  lemma MulCommutes(a: int, b: int)
    ensures a * b == b * a
  {}

  lemma DigitBelow(b: nat, p: nat, x: nat, d: nat)
    requires x < p && d < b
    ensures b * x + d < b * p
  {
    MulGe(p - 1 - x, b);
    assert (p - 1 - x) * b == b * p - b - b * x;
  }

  lemma {:induction false} FromDigitsBound(b: nat, ds: seq<nat>)
    requires b > 0 && forall i :: 0 <= i < |ds| ==> ds[i] < b
    ensures FromDigits(b, ds) < Pow(b, |ds|)
    decreases |ds|
  {
    if ds != [] {
      var rest := ds[..|ds| - 1];
      FromDigitsBound(b, rest);
      DigitBelow(b, Pow(b, |ds| - 1), FromDigits(b, rest), ds[|ds| - 1]);
    }
  }

  // ---- Printed numerals ----------------------------------------------------------

  const DIGITS := "0123456789abcdef"

  function DigitValue(c: char): int {
    if '0' <= c <= '9' then c as int - '0' as int
    else if 'a' <= c <= 'f' then c as int - 'a' as int + 10
    else if 'A' <= c <= 'F' then c as int - 'A' as int + 10
    else -1
  }

  predicate IsDigit(b: nat, c: char) {
    0 <= DigitValue(c) < b
  }

  predicate AllDigits(b: nat, s: string) {
    forall i :: 0 <= i < |s| ==> IsDigit(b, s[i])
  }

  predicate IsNumeral(b: nat, s: string) {
    s != [] && AllDigits(b, s)
  }

  function Render(b: nat, n: nat): (s: string)
    requires 2 <= b <= 16
  {
    if n < b then [DIGITS[n]] else Render(b, n / b) + [DIGITS[n % b]]
  }

  function Parse(b: nat, s: string): nat
    requires AllDigits(b, s)
  {
    if s == [] then 0
    else
      assert IsDigit(b, s[|s| - 1]);
      MulGe(b, Parse(b, s[..|s| - 1]));
      b * Parse(b, s[..|s| - 1]) + DigitValue(s[|s| - 1])
  }

  lemma DigitOf(b: nat, n: nat)
    requires 2 <= b <= 16 && n < b
    ensures DigitValue(DIGITS[n]) == n && DIGITS[n] != ':' && DIGITS[n] != '.' && DIGITS[n] != '/'
    ensures DIGITS[n] == '0' <==> n == 0
  {}

  // A printed number is a numeral without a leading zero or a separator...
  lemma {:induction false} RenderShape(b: nat, n: nat)
    requires 2 <= b <= 16
    ensures IsNumeral(b, Render(b, n))
    ensures Render(b, n)[0] == '0' <==> n == 0
    ensures ':' !in Render(b, n) && '.' !in Render(b, n) && '/' !in Render(b, n)
    decreases n
  {
    if n < b {
      DigitOf(b, n);
    } else {
      DivPositive(n, b);
      RenderShape(b, n / b);
      DigitOf(b, n % b);
    }
  }

  // ... and reads back as the number.
  lemma {:induction false} RenderParse(b: nat, n: nat)
    requires 2 <= b <= 16
    ensures IsNumeral(b, Render(b, n)) && Parse(b, Render(b, n)) == n
    decreases n
  {
    RenderShape(b, n);
    if n < b {
      DigitOf(b, n);
      ParseAppend(b, "", DIGITS[n]);
    } else {
      DivPositive(n, b);
      RenderParse(b, n / b);
      RenderParseStep(b, n, n / b, n % b);
    }
  }

  lemma RenderParseStep(b: nat, n: nat, q: nat, r: nat)
    requires 2 <= b <= n && b <= 16 && q == n / b && r == n % b
    requires IsNumeral(b, Render(b, q)) && Parse(b, Render(b, q)) == q
    ensures IsNumeral(b, Render(b, n)) && Parse(b, Render(b, n)) == n
  {
    DigitOf(b, r);
    var c := DIGITS[r];
    assert Render(b, n) == Render(b, q) + [c];
    ParseAppend(b, Render(b, q), c);
    DivMod(n, b);
  }

  lemma DivMod(n: nat, b: nat)
    requires b > 0
    ensures n == b * (n / b) + n % b
  {}

  lemma ParseAppend(b: nat, s: string, c: char)
    requires AllDigits(b, s) && IsDigit(b, c)
    ensures Parse(b, s + [c]) == b * Parse(b, s) + DigitValue(c)
  {
    assert (s + [c])[..|s|] == s;
  }

  lemma DivPositive(n: nat, b: nat)
    requires 2 <= b <= n
    ensures 0 < n / b < n
  {
    var q, r := n / b, n % b;
    assert n == q * b + r && q * b == 2 * q + (b - 2) * q;
    assert q >= 0 by { DivNonneg(n, b); }
    MulGe(b - 2, q);
  }

  lemma DivNonneg(n: nat, b: nat)
    requires b > 0
    ensures n / b >= 0
  {}

  lemma {:induction false} RenderLength(b: nat, n: nat, k: nat)
    requires 2 <= b <= 16 && k >= 1 && n < Pow(b, k)
    ensures |Render(b, n)| <= k
    decreases k
  {
    if n >= b {
      assert k >= 2 by { assert Pow(b, 1) == b * Pow(b, 0); }
      DivBelow(n, b, Pow(b, k - 1));
      RenderLength(b, n / b, k - 1);
    }
  }

  lemma {:induction false} ParseBound(b: nat, s: string, k: nat)
    requires b > 1 && AllDigits(b, s) && |s| <= k
    ensures Parse(b, s) < Pow(b, k)
    decreases k
  {
    if s != [] {
      var init, last := s[..|s| - 1], s[|s| - 1];
      assert IsDigit(b, last);
      ParseBound(b, init, k - 1);
      DigitBelow(b, Pow(b, k - 1), Parse(b, init), DigitValue(last));
    }
  }

  // ---- Splitting and joining -------------------------------------------------------

  function IndexOf(s: string, c: char): (i: nat)
    ensures i <= |s| && (forall k :: 0 <= k < i ==> s[k] != c) && (i < |s| ==> s[i] == c)
  {
    if s == [] || s[0] == c then 0 else 1 + IndexOf(s[1..], c)
  }

  function Split(s: string, c: char): (parts: seq<string>)
    ensures |parts| >= 1
    decreases |s|
  {
    var i := IndexOf(s, c);
    if i == |s| then [s] else [s[..i]] + Split(s[i + 1..], c)
  }

  function Join(parts: seq<string>, c: char): string {
    if parts == [] then ""
    else if |parts| == 1 then parts[0]
    else parts[0] + [c] + Join(parts[1..], c)
  }

  lemma IndexOfConcat(s: string, t: string, c: char)
    requires c !in s
    ensures IndexOf(s + [c] + t, c) == |s| && IndexOf(s, c) == |s|
  {
    var u := s + [c] + t;
    assert u[|s|] == c && forall k :: 0 <= k < |s| ==> u[k] == s[k];
  }

  lemma {:induction false} SplitJoin(parts: seq<string>, c: char)
    requires |parts| >= 1 && forall i :: 0 <= i < |parts| ==> c !in parts[i]
    ensures Split(Join(parts, c), c) == parts
    decreases |parts|
  {
    if |parts| == 1 {
      IndexOfConcat(parts[0], "", c);
    } else {
      var rest := Join(parts[1..], c);
      var s := Join(parts, c);
      IndexOfConcat(parts[0], rest, c);
      assert s[..|parts[0]|] == parts[0] && s[|parts[0]| + 1..] == rest;
      SplitJoin(parts[1..], c);
    }
  }

  lemma {:induction false} JoinLacks(parts: seq<string>, c: char, d: char)
    requires c != d && forall i :: 0 <= i < |parts| ==> d !in parts[i]
    ensures d !in Join(parts, c)
    decreases |parts|
  {
    if |parts| > 1 {
      JoinLacks(parts[1..], c, d);
    }
  }
}
