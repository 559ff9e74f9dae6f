/** The composable Internet checksum (section 2 of RFC 1071), on a little-endian machine. */
module IpChecksum {
  import opened PowersOfTwo

  type byte = b: int | 0 <= b < 256
  type u16 = w: int | 0 <= w < 0x1_0000

  const ONES: nat := 0xFFFF

  /** The plain sum: bytes at odd positions count 256 times. */
  function Total(data: seq<byte>): nat {
    if data == [] then 0
    else Total(data[..|data| - 1]) + Weighted(data[|data| - 1], |data| - 1)
  }

  function Weighted(b: nat, position: nat): nat { if position % 2 == 1 then 256 * b else b }

  /** The representative of a sum modulo 0xFFFF in 16 bits: zero only for a sum of zero. */
  function Fold(x: nat): (r: u16)
    ensures r == 0 <==> x == 0
  {
    if x == 0 then 0 else (x - 1) % ONES + 1
  }

  lemma FoldUnique(x: nat, r: nat, k: nat)
    requires x == r + k * ONES && 1 <= r <= ONES
    ensures Fold(x) == r
  {
    DivUnique(x - 1, k, r - 1, ONES);
  }

  /** A folded sum differs by a multiple of 0xFFFF. */
  lemma FoldIs(x: nat) returns (k: nat)
    ensures x == Fold(x) + k * ONES
  {
    k := if x == 0 then 0 else (x - 1) / ONES;
  }

  /** One addition with the carry wrapped around. */
  lemma FoldAdd(x: nat, y: nat)
    ensures Fold(x + y) == if Fold(x) + Fold(y) > ONES then Fold(x) + Fold(y) - ONES else Fold(x) + Fold(y)
  {
    var j := FoldIs(x);
    var k := FoldIs(y);
    hide Fold;
    var s := Fold(x) + Fold(y);
    if x == 0 && y == 0 {
    } else if s > ONES {
      FoldUnique(x + y, s - ONES, j + k + 1);
    } else {
      FoldUnique(x + y, s, j + k);
    }
  }

  function Swap(w: u16): u16 { w % 256 * 256 + w / 256 }

  /** Swapping the bytes of a folded sum is multiplying the sum by 256. */
  lemma FoldSwap(x: nat)
    ensures Swap(Fold(x)) == Fold(256 * x)
  {
    var k := FoldIs(x);
    var w: nat := Fold(x);
    var high, low := w / 256, w % 256;
    assert w == high * 256 + low;
    hide Fold;
    if x > 0 {
      assert 256 * x == (low * 256 + high) + (high + 256 * k) * ONES;
      FoldUnique(256 * x, low * 256 + high, high + 256 * k);
    }
  }

  /** `compute_ip_checksum` */
  method Compute(data: seq<byte>) returns (checksum: u16)
    ensures checksum == ONES - Fold(Total(data))
  {
    hide Fold, Total;
    var sum: nat := 0;
    TotalStart();
    for i := 0 to |data|
      invariant sum == Fold(Total(data[..i]))
    {
      TotalNext(data, i);
      var v: nat := data[i];
      if i % 2 == 1 {
        v := v * 256;
      }
      FoldAdd(Total(data[..i]), v);
      SmallFold(v);
      sum := sum + v;
      if sum > ONES {
        CarryWraps(sum);
        sum := (sum + sum / 0x1_0000) % 0x1_0000;
      }
    }
    assert data[..|data|] == data;
    var low, high := sum % 256, sum / 256 % 256;
    BytesOf(sum);
    checksum := ONES - (low + high * 256);
  }

  lemma TotalStart()
    ensures Total([]) == 0 && Fold(0) == 0
  {}

  lemma TotalNext(data: seq<byte>, i: nat)
    requires i < |data|
    ensures Total(data[..i + 1]) == Total(data[..i]) + Weighted(data[i], i)
    ensures data[..0] == []
  {
    assert data[..i + 1][..i] == data[..i];
  }

  lemma CarryWraps(sum: nat)
    requires ONES < sum <= 2 * ONES
    ensures (sum + sum / 0x1_0000) % 0x1_0000 == sum - ONES
  {}

  lemma BytesOf(sum: nat)
    requires sum <= ONES
    ensures sum == sum % 256 + sum / 256 % 256 * 256
  {}

  lemma ShiftOut(n: nat)
    requires n <= ONES
    ensures n / 256 + n * 256 % 0x1_0000 == Swap(n) <= ONES
  {
    var high, low := n / 256, n % 256;
    DivShift(high, low * 256, 0x1_0000);
    assert n * 256 == high * 0x1_0000 + low * 256;
  }

  lemma SmallFold(v: nat)
    requires v <= ONES
    ensures Fold(v) == v
  {}

  /** `add_ip_checksums` */
  method Add(offset: nat, sum: u16, more: u16) returns (checksum: u16)
    ensures checksum == Combine(offset, sum, more)
  {
    hide Swap;
    var s: nat, n: nat := ONES - sum, ONES - more;
    ShiftOut(n);
    if offset % 2 == 1 {
      n := n / 256 + n * 256 % 0x1_0000;
    }
    var c: nat := s + n;
    if c > ONES {
      c := c - ONES;
    }
    checksum := ONES - c;
  }

  /** The checksum of a block of `offset` bytes with the checksum `sum`, followed by one with
      the checksum `more`: ones' complement addition, with the second sum byte-swapped if it
      starts at an odd offset. */
  function Combine(offset: nat, sum: u16, more: u16): u16 {
    var s, m: nat := ONES - sum, ONES - more;
    var n := if offset % 2 == 1 then Swap(m) else m;
    ONES - if s + n > ONES then s + n - ONES else s + n
  }

  /** After an even number of bytes a block adds its own total; after an odd number, 256
      times that, modulo 0xFFFF. */
  lemma {:induction false} TotalAppend(a: seq<byte>, b: seq<byte>) returns (k: nat)
    ensures |a| % 2 == 0 ==> Total(a + b) == Total(a) + Total(b)
    ensures |a| % 2 == 1 ==> Total(a + b) + k * ONES == Total(a) + 256 * Total(b)
    decreases |b|
  {
    hide Weighted;
    if b == [] {
      k := 0;
      assert a + b == a;
    } else {
      var n := |b| - 1;
      var j := TotalAppend(a, b[..n]);
      assert (a + b)[..|a + b| - 1] == a + b[..n];
      k := if |b| % 2 == 0 then j + b[n] else j;
      LastWeights(a, b);
      MovedWeight(b[n], |a|, n);
      hide Total;
    }
  }

  /** How a byte weighs after `shift` more bytes. */
  lemma MovedWeight(v: byte, shift: nat, n: nat)
    ensures shift % 2 == 0 ==> Weighted(v, shift + n) == Weighted(v, n)
    ensures shift % 2 == 1 && n % 2 == 0 ==> Weighted(v, shift + n) == 256 * Weighted(v, n)
    ensures shift % 2 == 1 && n % 2 == 1 ==> Weighted(v, shift + n) + v * ONES == 256 * Weighted(v, n)
  {}

  /** The weights of the last byte, in `b` and in `a + b`. */
  lemma LastWeights(a: seq<byte>, b: seq<byte>)
    requires b != []
    ensures var n, v := |b| - 1, b[|b| - 1];
            && Total(b) == Total(b[..n]) + Weighted(v, n)
            && Total(a + b) == Total((a + b)[..|a + b| - 1]) + Weighted(v, |a| + n)
  {
    assert (a + b)[|a + b| - 1] == b[|b| - 1];
  }

  lemma FoldCongruent(x: nat, y: nat, k: nat)
    requires x + k * ONES == y && (x == 0 ==> y == 0)
    ensures Fold(x) == Fold(y)
  {
    if x > 0 { DivShift(k, x - 1, ONES); }
  }

  lemma {:induction false} TotalZero(a: seq<byte>)
    ensures Total(a) == 0 <==> forall i | 0 <= i < |a| :: a[i] == 0
    decreases |a|
  {
    if a != [] {
      var n := |a| - 1;
      TotalZero(a[..n]);
      assert forall i | 0 <= i < n :: a[..n][i] == a[i];
    }
  }

  /** Composition is exact, including which of the two zeros comes out. */
  lemma Composition(a: seq<byte>, b: seq<byte>)
    ensures Combine(|a|, ONES - Fold(Total(a)), ONES - Fold(Total(b))) == ONES - Fold(Total(a + b))
  {
    var k := TotalAppend(a, b);
    hide Fold, Total, Swap;
    if |a| % 2 == 0 {
      FoldAdd(Total(a), Total(b));
    } else {
      FoldSwap(Total(b));
      FoldAdd(Total(a), 256 * Total(b));
      ZeroTogether(a, b);
      FoldCongruent(Total(a + b), Total(a) + 256 * Total(b), k);
    }
  }

  lemma ZeroTogether(a: seq<byte>, b: seq<byte>)
    ensures Total(a + b) == 0 ==> Total(a) == 0 && Total(b) == 0
  {
    hide Total;
    TotalZero(a + b);
    TotalZero(a);
    TotalZero(b);
    assert forall i | 0 <= i < |a| :: (a + b)[i] == a[i];
    assert forall i | 0 <= i < |b| :: (a + b)[|a| + i] == b[i];
  }

  /** What the checksum is for: stored, low byte first, in a field that was zero while it was
      computed, it makes the checksum of the whole come out as zero. */
  lemma ReceiverAccepts(before: seq<byte>, low: byte, high: byte, after: seq<byte>)
    requires |before| % 2 == 0
    requires low + 256 * high == ONES - Fold(Total(before + ([0, 0] + after)))
    ensures ONES - Fold(Total(before + ([low, high] + after))) == 0
  {
    hide Fold, Total;
    var sum := Total(before + ([0, 0] + after));
    FieldTotal(before, 0, 0, after);
    FieldTotal(before, low, high, after);
    var k := FoldIs(sum);
    var all := Total(before + ([low, high] + after));
    assert all == sum + (low + 256 * high) == ONES + k * ONES;
    FoldUnique(all, ONES, k);
  }

  lemma FieldTotal(before: seq<byte>, low: byte, high: byte, after: seq<byte>)
    requires |before| % 2 == 0
    ensures Total(before + ([low, high] + after)) == Total(before) + Total(after) + low + 256 * high
  {
    var j := TotalAppend(before, [low, high] + after);
    var k := TotalAppend([low, high], after);
    assert [low, high][..1] == [low] && [low][..0] == [];
    assert Total([low]) == low;
  }
}
