/** The "binary first" numbering of tristate pins: pin combinations without a floating pin
    are numbered first, in binary; the others follow in the order of their ternary value. */
module GpioBase3 {
  import opened PowersOfTwo

  type digit = d: int | 0 <= d < 3

  /** A floating pin. */
  const Z: digit := 2

  function Pow3(n: nat): (r: nat)
    ensures r >= 1
  {
    if n == 0 then 1 else 3 * Pow3(n - 1)
  }

  /** The plain ternary value; the last pin is the most significant. */
  function Ternary(d: seq<digit>): nat {
    if d == [] then 0 else Times(d[|d| - 1], Pow3(|d| - 1)) + Ternary(d[..|d| - 1])
  }

  function Times(a: nat, m: nat): nat { a * m }

  /** The plain binary value of pins without Z. */
  function Binary(d: seq<digit>): nat {
    if d == [] then 0 else Times(d[|d| - 1], Pow2(|d| - 1)) + Binary(d[..|d| - 1])
  }

  /** What the loop adds up from the most significant pin to the first Z. */
  function Below(d: seq<digit>): nat {
    if d == [] then 0
    else
      var n := |d| - 1;
      if d[n] == 0 then Below(d[..n]) else if d[n] == 1 then Pow2(n) + Below(d[..n]) else Pow2(n + 1)
  }

  function BinaryFirst(d: seq<digit>): int {
    if Z in d then Ternary(d) + Pow2(|d|) - Below(d) else Below(d)
  }

  // ----- the program

  /** What a pin reads as, pulled up and then pulled down; a pin that follows neither pull
      reads the same both times. */
  function Read(up: nat, down: nat): nat { if up == down then down else down + 2 }

  /** Low both times is 0, high both times is 1, and a pin that follows the pulls is a Z. */
  lemma ReadIs(up: nat, down: nat)
    requires down <= up <= 1
    ensures Read(up, down) == 0 <==> up == 0 && down == 0
    ensures Read(up, down) == 1 <==> up == 1 && down == 1
    ensures Read(up, down) == Z <==> up == 1 && down == 0
  {}

  ghost function ReadAll(up: seq<nat>, down: seq<nat>): (d: seq<digit>)
    requires Pins(up, down)
    ensures |d| == |up| && forall k | 0 <= k < |d| :: d[k] == Read(up[k], down[k])
  {
    seq(|up|, k requires 0 <= k < |up| => Read(up[k], down[k]))
  }

  /** No pin is low when pulled up and high when pulled down. */
  predicate Pins(up: seq<nat>, down: seq<nat>) {
    |up| == |down| && forall k | 0 <= k < |up| :: down[k] <= up[k] <= 1
  }

  /** What the two running totals are worth before pin `i - 1` is looked at. */
  function TotalFrom(d: seq<digit>, i: nat): nat
    requires i <= |d|
  {
    Ternary(d[i..])
  }

  function BelowFrom(d: seq<digit>, i: nat): int
    requires i <= |d|
  {
    Below(d) - if Z in d[i..] then 0 else Below(d[..i])
  }

  /** `_gpio_base3_value`.  `totals` are the values that `result` goes through, and `belows`
      those of `binary_below`. */
  method Base3Value(up: seq<nat>, down: seq<nat>, binaryFirst: bool)
    returns (result: int, ghost totals: seq<int>, ghost belows: seq<int>)
    requires Pins(up, down)
    ensures result == if binaryFirst then BinaryFirst(ReadAll(up, down)) else Ternary(ReadAll(up, down))
    ensures |totals| == |belows| == |up| + 1
    ensures forall k | 0 <= k <= |up| ::
              && totals[k] == TotalFrom(ReadAll(up, down), |up| - k)
              && belows[k] == if binaryFirst then BelowFrom(ReadAll(up, down), |up| - k) else 0
  {
    hide Pow2, Below, Ternary;
    result := 0;
    var hasZ, binaryBelow := false, 0;
    ghost var d := ReadAll(up, down);
    Start(d);
    totals, belows := [0], [0];
    for i := |up| downto 0
      invariant result == TotalFrom(d, i)
      invariant binaryFirst ==> (hasZ <==> Z in d[i..])
      invariant binaryBelow == if binaryFirst then BelowFrom(d, i) else 0
      invariant |totals| == |belows| == |up| - i + 1
      invariant forall k | 0 <= k <= |up| - i ::
                  totals[k] == TotalFrom(d, |up| - k) && belows[k] == if binaryFirst then BelowFrom(d, |up| - k) else 0
    {
      var temp := Read(up[i], down[i]);
      Next(d, i);
      result := result * 3 + temp;
      if binaryFirst && !hasZ {
        if temp == 1 {
          binaryBelow := binaryBelow + Pow2(i);
        } else if temp == 2 {
          binaryBelow := binaryBelow + Pow2(i + 1);
          hasZ := true;
        }
      }
      totals, belows := totals + [result], belows + [binaryBelow];
    }
    assert d[0..] == d;
    if binaryFirst {
      if hasZ {
        result := result + Pow2(|up|) - binaryBelow;
      } else {
        result := binaryBelow;
      }
    }
  }

  lemma Start(d: seq<digit>)
    ensures d[..|d|] == d && d[|d|..] == [] && Below([]) == 0 && Ternary([]) == 0 && d[..0] == []
  {}

  lemma Next(d: seq<digit>, i: nat)
    requires i < |d|
    ensures d[i..] == [d[i]] + d[i + 1..]
    ensures Ternary(d[i..]) == 3 * Ternary(d[i + 1..]) + d[i]
    ensures Below(d[..i + 1]) == if d[i] == 0 then Below(d[..i])
                                 else if d[i] == 1 then Pow2(i) + Below(d[..i]) else Pow2(i + 1)
  {
    assert d[..i + 1][..i] == d[..i];
    assert d[i..][1..] == d[i + 1..];
    TernaryFront(d[i..]);
  }

  /** The least significant pin taken off. */
  lemma {:induction false} TernaryFront(d: seq<digit>)
    requires d != []
    ensures Ternary(d) == 3 * Ternary(d[1..]) + d[0]
    decreases |d|
  {
    var n := |d| - 1;
    if n > 0 {
      TernaryFront(d[..n]);
      assert d[..n][1..] == d[1..][..n - 1];
      Thrice(d[n], Pow3(n - 1));
    } else {
      assert d[..0] == [] && d[1..] == [] && Pow3(0) == 1;
    }
  }

  lemma Thrice(a: int, m: int)
    ensures a * (3 * m) == 3 * (a * m)
  {}

  // ----- counting

  /** The `n` ternary digits of `v` include no Z. */
  predicate Free(n: nat, v: nat) {
    n == 0 || (v / Pow3(n - 1) < 2 && Free(n - 1, v % Pow3(n - 1)))
  }

  /** How many numbers below `v` have a Z among their `n` digits, or have none. */
  function Count(n: nat, v: nat, withZ: bool): nat {
    if v == 0 then 0 else Count(n, v - 1, withZ) + if Free(n, v - 1) != withZ then 1 else 0
  }

  lemma {:induction false} CountAll(n: nat, v: nat)
    ensures Count(n, v, false) + Count(n, v, true) == v
    decreases v
  {
    hide Free;
    if v > 0 { CountAll(n, v - 1); }
  }

  lemma {:induction false} CountMore(n: nat, v: nat, w: nat, withZ: bool)
    requires v < w && Free(n, v) != withZ
    ensures Count(n, v, withZ) < Count(n, w, withZ)
    decreases w
  {
    hide Free;
    if v < w - 1 { CountMore(n, v, w - 1, withZ); }
  }

  /** In the block of numbers with the top digit `q`. */
  lemma FreeInBlock(n: nat, q: nat, u: nat)
    requires n > 0 && u < Pow3(n - 1)
    ensures Free(n, Times(q, Pow3(n - 1)) + u) <==> q < 2 && Free(n - 1, u)
  {
    DivUnique(q * Pow3(n - 1) + u, q, u, Pow3(n - 1));
  }

  lemma {:induction false} CountBlock(n: nat, q: nat, r: nat)
    requires n > 0 && r <= Pow3(n - 1)
    ensures Count(n, Times(q, Pow3(n - 1)) + r, false)
         == Count(n, Times(q, Pow3(n - 1)), false) + if q < 2 then Count(n - 1, r, false) else 0
    decreases r
  {
    hide Free, Pow3, Times;
    if r > 0 {
      CountBlock(n, q, r - 1);
      FreeInBlock(n, q, r - 1);
    }
  }

  lemma BlockStarts(m: nat)
    ensures Times(0, m) == 0 && Times(1, m) == Times(0, m) + m && Times(2, m) == Times(1, m) + m
            && Times(3, m) == Times(2, m) + m
  {}

  /** Of all 3^n numbers, 2^n have no Z; those below each top digit. */
  lemma {:induction false} CountFull(n: nat)
    ensures Count(n, Pow3(n), false) == Pow2(n)
    ensures n > 0 ==>
              Count(n, Times(1, Pow3(n - 1)), false) == Pow2(n - 1) && Count(n, Times(2, Pow3(n - 1)), false) == Pow2(n)
    decreases n
  {
    if n > 0 { ThreeBlocks(n); }
    hide Times, Free;
    if n == 0 {
      FreeOfNone();
      assert Count(0, 1, false) == Count(0, 0, false) + 1;
    } else {
      CountFull(n - 1);
      var m := Pow3(n - 1);
      BlockStarts(m);
      CountBlock(n, 0, m);
      CountBlock(n, 1, m);
      CountBlock(n, 2, m);
    }
  }

  lemma ThreeBlocks(n: nat)
    requires n > 0
    ensures Times(3, Pow3(n - 1)) == Pow3(n) && Times(0, Pow3(n - 1)) == 0
  {}

  lemma FreeOfNone()
    ensures Free(0, 0)
  {}

  lemma {:induction false} TernaryBound(d: seq<digit>)
    ensures Ternary(d) < Pow3(|d|)
    decreases |d|
  {
    if d != [] {
      var n := |d| - 1;
      TernaryBound(d[..n]);
      BlockStarts(Pow3(n));
    }
  }

  lemma CountNone(n: nat)
    requires n > 0
    ensures Times(0, Pow3(n - 1)) == 0 && Count(n, 0, false) == 0
  {}

  lemma {:induction false} FreeExact(d: seq<digit>)
    ensures Free(|d|, Ternary(d)) <==> Z !in d
    decreases |d|
  {
    if d != [] {
      hide Pow3, Times, Free, Ternary;
      var n := |d| - 1;
      TernaryTop(d);
      FreeExact(d[..n]);
      TernaryBound(d[..n]);
      FreeInBlock(n + 1, d[n], Ternary(d[..n]));
      assert d == d[..n] + [d[n]];
    } else {
      FreeOfNone();
    }
  }

  /** `binary_below` is the number of pin combinations without Z whose ternary value is
      smaller. */
  lemma {:induction false} BelowCounts(d: seq<digit>)
    ensures Below(d) == Count(|d|, Ternary(d), false)
    ensures Free(|d|, Ternary(d)) <==> Z !in d
    decreases |d|
  {
    if d != [] {
      hide Pow3, Pow2, Times, Count, Free, Ternary;
      var n := |d| - 1;
      TernaryTop(d);
      BelowCounts(d[..n]);
      TernaryBound(d[..n]);
      CountFull(n + 1);
      CountBlock(n + 1, d[n], Ternary(d[..n]));
      CountNone(n + 1);
    }
    FreeExact(d);
  }

  /** Pins without Z get their binary value. */
  lemma {:induction false} BinaryIs(d: seq<digit>)
    requires Z !in d
    ensures BinaryFirst(d) == Binary(d) == Below(d)
    decreases |d|
  {
    if d != [] { BinaryIs(d[..|d| - 1]); }
  }

  // ----- the numbering is a bijection

  /** The number of a combination, by its rank among those of its kind. */
  lemma RankIs(d: seq<digit>)
    ensures BinaryFirst(d) == if Z in d then Pow2(|d|) + Count(|d|, Ternary(d), true) else Count(|d|, Ternary(d), false)
  {
    BelowCounts(d);
    CountAll(|d|, Ternary(d));
  }

  /** Combinations without Z come first, and all numbers are below 3^n. */
  lemma InRange(d: seq<digit>)
    ensures Z !in d ==> 0 <= BinaryFirst(d) < Pow2(|d|)
    ensures Z in d ==> Pow2(|d|) <= BinaryFirst(d) < Pow3(|d|)
    ensures Pow2(|d|) <= Pow3(|d|)
  {
    hide Count, Free, Ternary, Below, Pow2, Pow3;
    var n, v := |d|, Ternary(d);
    RankIs(d);
    BelowCounts(d);
    TernaryBound(d);
    CountFull(n);
    CountAll(n, Pow3(n));
    CountMore(n, v, Pow3(n), Z in d);
  }

  lemma TernaryTop(d: seq<digit>)
    requires d != []
    ensures Ternary(d) == Times(d[|d| - 1], Pow3(|d| - 1)) + Ternary(d[..|d| - 1])
  {}

  lemma {:induction false} TernaryInjective(d: seq<digit>, e: seq<digit>)
    requires |d| == |e| && d != e
    ensures Ternary(d) != Ternary(e)
    decreases |d|
  {
    hide Pow3, Times, Ternary;
    var n := |d| - 1;
    TernaryTop(d);
    TernaryTop(e);
    TernaryBound(d[..n]);
    TernaryBound(e[..n]);
    BlockStarts(Pow3(n));
    if d[n] == e[n] {
      assert d == d[..n] + [d[n]] && e == e[..n] + [e[n]];
      TernaryInjective(d[..n], e[..n]);
    }
  }

  /** Different combinations get different numbers; those of one kind keep their order. */
  lemma Injective(d: seq<digit>, e: seq<digit>)
    requires |d| == |e| && d != e
    ensures BinaryFirst(d) != BinaryFirst(e)
    ensures (Z in d <==> Z in e) && Ternary(d) < Ternary(e) ==> BinaryFirst(d) < BinaryFirst(e)
  {
    hide Count, Free, Ternary, Below, Pow2, Pow3, BinaryFirst;
    var n := |d|;
    TernaryInjective(d, e);
    RankIs(d);
    RankIs(e);
    InRange(d);
    InRange(e);
    BelowCounts(d);
    BelowCounts(e);
    if (Z in d <==> Z in e) && Ternary(d) < Ternary(e) { CountMore(n, Ternary(d), Ternary(e), Z in d); }
    if (Z in d <==> Z in e) && Ternary(e) < Ternary(d) { CountMore(n, Ternary(e), Ternary(d), Z in d); }
  }

  /** Every rank is taken. */
  lemma {:induction false} AtRank(n: nat, rank: nat, hi: nat, withZ: bool) returns (v: nat)
    requires rank < Count(n, hi, withZ)
    ensures v < hi && Free(n, v) != withZ && Count(n, v, withZ) == rank
    decreases hi
  {
    hide Free;
    if rank < Count(n, hi - 1, withZ) { v := AtRank(n, rank, hi - 1, withZ); } else { v := hi - 1; }
  }

  lemma {:induction false} DigitsOf(n: nat, v: nat) returns (d: seq<digit>)
    requires v < Pow3(n)
    ensures |d| == n && Ternary(d) == v
    decreases n
  {
    if n == 0 {
      d := [];
    } else {
      var m := Pow3(n - 1);
      BlockStarts(m);
      var q, r := v / m, v % m;
      TopDigit(v, m);
      var low := DigitsOf(n - 1, r);
      d := low + [q];
      assert d[..n - 1] == low;
    }
  }

  lemma TopDigit(v: nat, m: nat)
    requires m > 0 && v < 3 * m
    ensures 0 <= v / m < 3 && v == Times(v / m, m) + v % m
  {
    BlockStarts(m);
    OrderTimes(v / m - 3, m);
    assert (v / m - 3) * m == v / m * m - 3 * m;
  }

  /** Every number below 3^n is the number of some combination of n pins. */
  lemma Surjective(n: nat, number: nat) returns (d: seq<digit>)
    requires number < Pow3(n)
    ensures |d| == n && BinaryFirst(d) == number
  {
    hide Count, Free, Ternary, Below, Pow2, Pow3;
    CountFull(n);
    CountAll(n, Pow3(n));
    var withZ := number >= Pow2(n);
    var v := AtRank(n, if withZ then number - Pow2(n) else number, Pow3(n), withZ);
    d := DigitsOf(n, v);
    BelowCounts(d);
    RankIs(d);
  }

  // ----- the width of an int

  const INT_MAX: nat := 0x7FFF_FFFF

  /** The totals at pin `i`, and the sum made at the end, fit in a 32-bit int. */
  predicate Fits(d: seq<digit>, i: nat)
    requires i <= |d|
  {
    TotalFrom(d, i) <= INT_MAX && 0 <= BelowFrom(d, i) <= INT_MAX && Ternary(d) + Pow2(|d|) <= INT_MAX
  }

  /** No combination of `n` pins overflows exactly when there are at most 19 of them; the
      code admits up to 32. */
  lemma NoOverflow(n: nat)
    ensures (forall d: seq<digit>, i: nat | |d| == n && i <= n :: Fits(d, i)) <==> n <= 19
  {
    hide Pow2, Pow3, Ternary, Below, TotalFrom, BelowFrom;
    PowersUpTo19();
    if n <= 19 {
      GrowPowers(n, 19);
      forall d: seq<digit>, i: nat | |d| == n && i <= n ensures Fits(d, i) {
        TotalBounds(d, i);
      }
    } else {
      GrowPowers(20, n);
      var d := DigitsOf(n, Pow3(n) - 1);
      assert !Fits(d, 0);
    }
  }

  lemma {:induction false} GrowPowers(a: nat, b: nat)
    requires a <= b
    ensures Pow2(a) <= Pow2(b) && Pow3(a) <= Pow3(b)
  {
    if a < b { GrowPowers(a, b - 1); }
  }

  lemma TotalBounds(d: seq<digit>, i: nat)
    requires i <= |d|
    ensures TotalFrom(d, i) < Pow3(|d|) && 0 <= BelowFrom(d, i) <= Pow2(|d|) && Ternary(d) < Pow3(|d|)
  {
    hide Pow2, Pow3, Ternary, Below;
    TernaryBound(d);
    TernaryBound(d[i..]);
    GrowPowers(|d| - i, |d|);
    BelowBounds(d, i);
  }

  /** The lower pins add to what is below, and no more than there are combinations. */
  lemma {:induction false} BelowBounds(d: seq<digit>, i: nat)
    requires i <= |d|
    ensures 0 <= Below(d) <= Pow2(|d|)
    ensures Z !in d[i..] ==> Below(d[..i]) <= Below(d)
    decreases |d|
  {
    if i < |d| {
      var n := |d| - 1;
      BelowBounds(d[..n], i);
      assert d[..n][..i] == d[..i] && d[i..] == d[..n][i..] + [d[n]];
    } else {
      assert d[..i] == d;
      if d != [] { BelowBounds(d[..|d| - 1], 0); }
    }
  }

  lemma PowersUpTo19()
    ensures Pow3(19) == 1162261467 && Pow2(19) == 524288 && Pow3(20) == 3486784401
  {
    assert Pow3(4) == 81 && Pow3(8) == 6561 && Pow3(12) == 531441 && Pow3(16) == 43046721;
    assert Pow2(4) == 16 && Pow2(8) == 256 && Pow2(12) == 4096 && Pow2(16) == 65536;
  }
}
