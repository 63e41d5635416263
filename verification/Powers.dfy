// Powers of two and aligned positions: the arithmetic under the address model.
module Powers {

  function Pow2(n: nat): (p: nat)
    ensures p > 0
  {
    if n == 0 then 1 else 2 * Pow2(n - 1)
  }

  lemma {:induction false} Pow2Add(a: nat, b: nat)
    ensures Pow2(a + b) == Pow2(a) * Pow2(b)
  {
    if a > 0 {
      Pow2Add(a - 1, b);
      assert Pow2(a + b) == 2 * Pow2((a - 1) + b);
    }
  }

  lemma {:induction false} Pow2Mono(a: nat, b: nat)
    requires a <= b
    ensures Pow2(a) <= Pow2(b)
    decreases b
  {
    if a < b {
      Pow2Mono(a, b - 1);
    }
  }

  // `x` has its low `h` bits clear.
  predicate Aligned(x: nat, h: nat) {
    x % Pow2(h) == 0
  }

  lemma ModMultiple(k: int, d: nat)
    requires d > 0
    ensures (k * d) % d == 0
  {
    DivModUnique(k * d, d, k, 0);
  }

  // Quotient and remainder are determined by x == q * d + r with 0 <= r < d.
  lemma DivModUnique(x: int, d: nat, q: int, r: int)
    requires d > 0 && 0 <= r < d && x == q * d + r
    ensures x / d == q && x % d == r
  {
    var q', r' := x / d, x % d;
    assert x == q' * d + r';
    assert (q' - q) * d == r - r' && (q - q') * d == r' - r;
    if q' > q {
      MulGe(q' - q, d);
    } else if q' < q {
      MulGe(q - q', d);
    }
  }

  lemma {:induction false} MulGe(k: nat, d: nat)
    ensures k * d >= 0
    ensures k >= 1 ==> k * d >= d
  {
    if k >= 1 {
      MulGe(k - 1, d);
      assert k * d == (k - 1) * d + d;
    }
  }

  // Alignment to a larger block is alignment to every smaller one.
  lemma AlignedDown(x: nat, a: nat, b: nat)
    requires a <= b && Aligned(x, b)
    ensures Aligned(x, a)
  {
    Pow2Add(b - a, a);
    var q := x / Pow2(b);
    assert x == (q * Pow2(b - a)) * Pow2(a) by {
      assert x == q * Pow2(b);
      MulAssoc(q, Pow2(b - a), Pow2(a));
    }
    ModMultiple(q * Pow2(b - a), Pow2(a));
  }

  lemma MulAssoc(a: int, b: int, c: int)
    ensures a * (b * c) == (a * b) * c
  {}

  // Two aligned positions are never closer than the block size.
  lemma AlignedGap(x: nat, y: nat, h: nat)
    requires Aligned(x, h) && Aligned(y, h) && x < y
    ensures x + Pow2(h) <= y
  {
    var d := Pow2(h);
    var i, j := x / d, y / d;
    assert x == i * d && y == j * d;
    assert i * d - j * d == (i - j) * d && j * d - i * d == (j - i) * d;
    if j <= i {
      MulGe(i - j, d);
    } else {
      MulGe(j - i, d);
    }
  }

  lemma AlignedStep(x: nat, h: nat)
    requires Aligned(x, h)
    ensures Aligned(x + Pow2(h), h)
  {
    var q := x / Pow2(h);
    assert x + Pow2(h) == (q + 1) * Pow2(h);
    ModMultiple(q + 1, Pow2(h));
  }

  lemma HalfSteps(m: nat, d: nat, x: nat)
    requires d > 0 && x == (2 * m) * d
    ensures x % (2 * d) == 0
  {
    assert x == m * (2 * d);
    ModMultiple(m, 2 * d);
  }

  // Aligned to h but not to h + 1: the next block boundary is aligned to h + 1.
  lemma AlignedCarry(x: nat, h: nat)
    requires Aligned(x, h) && !Aligned(x, h + 1)
    ensures Aligned(x + Pow2(h), h + 1)
  {
    var d := Pow2(h);
    var q := x / d;
    var m := q / 2;
    assert x == q * d && (q == 2 * m || q == 2 * m + 1);
    if q == 2 * m {
      HalfSteps(m, d, x);
    } else {
      assert (2 * m + 1) * d + d == (2 * (m + 1)) * d;
      HalfSteps(m + 1, d, x + d);
    }
  }
}
