/** Powers of two and the power-of-two rounding used throughout the code base
    (`(v + mask) & ~mask` and `v & ~mask` with `mask == 2^p - 1`). */
module PowersOfTwo {

  function Pow2(n: nat): (r: nat)
    ensures r >= 1
  {
    if n == 0 then 1 else 2 * Pow2(n - 1)
  }

  /** The least multiple of `m` that is not below `v`. */
  function RoundTo(v: nat, m: nat): nat
    requires m > 0
  {
    (v + m - 1) / m * m
  }

  /** `RoundTo` for the multiple `2^p`. */
  function RoundUp(v: nat, p: nat): nat {
    RoundTo(v, Pow2(p))
  }

  /** The greatest multiple of `m` that is not above `v`. */
  function FloorTo(v: nat, m: nat): nat
    requires m > 0
  {
    v / m * m
  }

  /** `FloorTo` for the multiple `2^p`. */
  function RoundDown(v: nat, p: nat): nat {
    FloorTo(v, Pow2(p))
  }

  predicate Aligned(v: nat, p: nat) {
    v % Pow2(p) == 0
  }

  lemma {:induction false} Pow2Add(a: nat, b: nat)
    ensures Pow2(a + b) == Pow2(a) * Pow2(b)
  {
    if a > 0 {
      Pow2Add(a - 1, b);
      Twice(Pow2(a - 1), Pow2(b));
    }
  }

  lemma Twice(x: nat, y: nat)
    ensures 2 * (x * y) == (2 * x) * y
  {}

  lemma {:induction false} Pow2Monotone(a: nat, b: nat)
    requires a <= b
    ensures Pow2(a) <= Pow2(b)
  {
    if a < b { Pow2Monotone(a, b - 1); }
  }

  lemma DivUnique(v: int, q: int, r: int, m: int)
    requires m > 0 && 0 <= r < m && v == q * m + r
    ensures v / m == q && v % m == r
  {
    var d := v / m - q;
    assert d * m == r - v % m;
    assert d >= 1 ==> d * m >= m;
    assert d <= -1 ==> d * m <= -m;
  }

  /** A multiple of `m` added below a division moves straight through it. */
  lemma DivShift(k: int, v: int, m: int)
    requires m > 0
    ensures (k * m + v) / m == k + v / m
    ensures (k * m + v) % m == v % m
  {
    assert k * m + v == (k + v / m) * m + v % m;
    DivUnique(k * m + v, k + v / m, v % m, m);
  }

  lemma MultipleOf(k: int, m: int)
    requires m > 0
    ensures (k * m) % m == 0 && (k * m) / m == k
  {
    DivUnique(k * m, k, 0, m);
  }

  lemma ExactQuotient(a: int, m: int)
    requires m > 0 && a % m == 0
    ensures a == (a / m) * m
  {}

  lemma Distribute(a: int, b: int, m: int)
    ensures (a - b) * m == a * m - b * m
  {}

  lemma SumOfMultiples(a: int, b: int, m: int)
    requires m > 0 && a % m == 0 && b % m == 0
    ensures (a + b) % m == 0
  {
    ExactQuotient(a, m);
    DivShift(a / m, b, m);
  }

  lemma FactorOfMultiple(v: int, a: int, b: int)
    requires a > 0 && b > 0 && a * b > 0 && v % (a * b) == 0
    ensures v % b == 0
  {
    var k := v / (a * b);
    ExactQuotient(v, a * b);
    assert v == (k * a) * b;
    MultipleOf(k * a, b);
  }

  /** Multiples of a larger power of two are multiples of a smaller one. */
  lemma MultipleOfSmaller(v: int, big: nat, small: nat)
    requires small <= big && v % Pow2(big) == 0
    ensures v % Pow2(small) == 0
  {
    Pow2Add(big - small, small);
    FactorOfMultiple(v, Pow2(big - small), Pow2(small));
  }

  lemma RoundToProperties(v: nat, m: nat)
    requires m > 0
    ensures RoundTo(v, m) % m == 0
    ensures v <= RoundTo(v, m) < v + m
  {
    var q := (v + m - 1) / m;
    MultipleOf(q, m);
    assert v + m - 1 == q * m + (v + m - 1) % m;
  }

  lemma RoundToLeast(v: nat, m: nat, w: nat)
    requires m > 0 && v <= w && w % m == 0
    ensures RoundTo(v, m) <= w
  {
    RoundToProperties(v, m);
    var d := RoundTo(v, m) / m - w / m;
    ExactQuotient(w, m);
    ExactQuotient(RoundTo(v, m), m);
    assert d * m == RoundTo(v, m) - w;
    assert d >= 1 ==> d * m >= m;
    assert d <= 0 ==> d * m <= 0;
  }

  lemma RoundToShift(b: nat, v: nat, m: nat)
    requires m > 0 && b % m == 0
    ensures RoundTo(b + v, m) == b + RoundTo(v, m)
  {
    var k := b / m;
    ExactQuotient(b, m);
    var w := v + m - 1;
    DivShift(k, w, m);
    assert b + v + m - 1 == k * m + w;
    assert (k + w / m) * m == k * m + w / m * m;
  }

  lemma RoundUpProperties(v: nat, p: nat)
    ensures RoundUp(v, p) % Pow2(p) == 0
    ensures v <= RoundUp(v, p) < v + Pow2(p)
  {
    RoundToProperties(v, Pow2(p));
  }

  lemma RoundUpLeast(v: nat, p: nat, w: nat)
    requires v <= w && w % Pow2(p) == 0
    ensures RoundUp(v, p) <= w
  {
    RoundToLeast(v, Pow2(p), w);
  }

  lemma RoundUpMonotone(v: nat, w: nat, p: nat)
    requires v <= w
    ensures RoundUp(v, p) <= RoundUp(w, p)
  {
    RoundUpProperties(w, p);
    RoundUpLeast(v, p, RoundUp(w, p));
  }

  /** Rounding commutes with adding a base that is already aligned. */
  lemma RoundUpShift(b: nat, v: nat, p: nat)
    requires b % Pow2(p) == 0
    ensures RoundUp(b + v, p) == b + RoundUp(v, p)
  {
    RoundToShift(b, v, Pow2(p));
  }

  lemma RoundUpFixpoint(v: nat, p: nat)
    requires v % Pow2(p) == 0
    ensures RoundUp(v, p) == v
  {
    RoundUpProperties(v, p);
    RoundUpLeast(v, p, v);
  }

  lemma RoundDownProperties(v: nat, p: nat)
    ensures RoundDown(v, p) % Pow2(p) == 0
    ensures v - Pow2(p) < RoundDown(v, p) <= v
  {
    MultipleOf(v / Pow2(p), Pow2(p));
  }

  lemma SmallPowers()
    ensures Pow2(0) == 1 && Pow2(8) == 0x100 && Pow2(10) == 0x400 && Pow2(16) == 0x1_0000 && Pow2(17) == 0x2_0000
            && Pow2(32) == 0x1_0000_0000
  {
    assert Pow2(8) == 0x100;
    Pow2Add(8, 8);
    Pow2Add(1, 16);
    Pow2Add(16, 16);
  }

  /** `a` shifted left by `p` bits. */
  function Shl(a: nat, p: nat): nat { a * Pow2(p) }

  lemma PowerStep(n: nat)
    requires n > 0
    ensures Pow2(n) == 2 * Pow2(n - 1)
  {}

  lemma ShlOne(p: nat)
    ensures Shl(1, p) == Pow2(p)
  {}

  lemma ShlZero(a: nat)
    ensures Shl(a, 0) == a
  {}

  lemma ShlDouble(a: nat, p: nat)
    ensures Shl(a, p + 1) == Shl(2 * a, p)
  {
    var m := Pow2(p);
    assert a * (2 * m) == (2 * a) * m;
  }

  lemma ShlMonotone(a: nat, b: nat, p: nat)
    ensures a <= b <==> Shl(a, p) <= Shl(b, p)
  {
    OrderTimes(b - a, Pow2(p));
    assert Shl(b, p) - Shl(a, p) == (b - a) * Pow2(p);
  }

  lemma OrderTimes(d: int, m: int)
    requires m > 0
    ensures d >= 0 <==> d * m >= 0
    ensures d > 0 <==> d * m >= m
  {
    assert d <= -1 ==> d * m <= -m;
  }

  lemma ShlAdd(a: nat, b: nat, p: nat)
    ensures Shl(a + b, p) == Shl(a, p) + Shl(b, p)
  {
    var m := Pow2(p);
    assert (a + b) * m == a * m + b * m;
  }

  /** `r` shifted right by `p` bits. */
  function Div(a: nat, m: nat): nat
    requires m > 0
  {
    a / m
  }

  function Shr(r: nat, p: nat): nat { Div(r, Pow2(p)) }

  /** The low `p` bits of `r`. */
  function Low(r: nat, p: nat): nat { r % Pow2(p) }

  lemma LowBound(r: nat, p: nat)
    ensures Low(r, p) < Pow2(p)
  {}

  /** Shifting back: `r` is below `a << p` exactly when its high part is below `a`. */
  lemma ShlBelow(r: nat, a: nat, p: nat)
    ensures r < Shl(a, p) <==> Shr(r, p) < a
    ensures r == Shl(Shr(r, p), p) + r % Pow2(p)
  {
    ShlBelowM(r, a, Pow2(p));
  }

  lemma ShlBelowM(r: nat, a: nat, m: int)
    requires m > 0
    ensures r < a * m <==> r / m < a
  {
    var q, k := r / m, r % m;
    assert r == q * m + k;
    OrderTimes(a - q, m);
    assert a * m - q * m == (a - q) * m;
  }

  /** Dividing by `m` and then by 2 is dividing by `2 * m`. */
  lemma DivTwice(v: nat, m: nat)
    requires m > 0
    ensures v / (2 * m) == v / m / 2
  {
    var q, r := v / m, v % m;
    assert v == (q / 2) * (2 * m) + ((q % 2) * m + r) by {
      assert q == 2 * (q / 2) + q % 2;
      assert (2 * (q / 2) + q % 2) * m == (q / 2) * (2 * m) + (q % 2) * m;
    }
    assert (q % 2) * m <= m;
    DivUnique(v, q / 2, (q % 2) * m + r, 2 * m);
  }

  /** Between two neighbouring multiples of `m` there is room for `m`. */
  lemma NextMultiple(v: int, w: int, m: int)
    requires m > 0 && v % m == 0 && w % m == 0 && v < w
    ensures v + m <= w
  {
    ExactQuotient(v, m);
    ExactQuotient(w, m);
    var d := w / m - v / m;
    assert d * m == w - v;
    assert d >= 1 ==> d * m >= m;
    assert d <= 0 ==> d * m <= 0;
  }
}
