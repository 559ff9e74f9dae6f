/** The arithmetic of placing the resources of one bus: where each one lands in the
    sizing pass and in the allocation pass, and what that guarantees.

    Addresses are mathematical integers: the code's 64-bit `resource_t` is modelled
    under the assumption that no sum wraps.  `ord` is the visiting order given by
    `ResourceOrder.Order`. */
module BusLayout {
  import opened PowersOfTwo
  import opened ResourceOrder

  /** The I/O alias rule: only the first 0x100 ports of each 0x400 block may be used,
      and the VGA range is stepped over. */
  function Bump(io: bool, base: nat): nat {
    if !io then base
    else if base / 0x100 % 4 != 0 then base / 0x400 * 0x400 + 0x400
    else if 0x3b0 <= base <= 0x3df then 0x3e0
    else base
  }

  /** The alias rule as both passes write it. */
  method AvoidAliases(io: bool, base0: nat) returns (base: nat)
    ensures base == Bump(io, base0)
  {
    base := base0;
    if io {
      if base / 0x100 % 4 != 0 {
        base := base / 0x400 * 0x400 + 0x400;
      } else if 0x3b0 <= base <= 0x3df {
        base := 0x3e0;
      }
    }
  }

  function PlaceAt(io: bool, base: nat, align: nat): nat {
    RoundUp(Bump(io, base), align)
  }

  ghost predicate ValidOrder(keys: seq<Key>, ord: seq<nat>) {
    forall k | 0 <= k < |ord| :: ord[k] < |keys|
  }

  /** Sizing pass: the next free offset after placing `ord` one by one from `base`. */
  ghost function After(io: bool, base: nat, keys: seq<Key>, ord: seq<nat>): nat
    requires ValidOrder(keys, ord)
  {
    if ord == [] then base
    else
      var prev := After(io, base, keys, ord[..|ord| - 1]);
      var k := keys[ord[|ord| - 1]];
      if k.size == 0 then prev else PlaceAt(io, prev, k.align) + k.size
  }

  /** Sizing pass: the offset given to the `j`-th resource visited. */
  ghost function OffsetOf(io: bool, base: nat, keys: seq<Key>, ord: seq<nat>, j: nat): nat
    requires ValidOrder(keys, ord) && j < |ord|
  {
    PlaceAt(io, After(io, base, keys, ord[..j]), keys[ord[j]].align)
  }

  /** The alignment a bridge window ends up with. */
  ghost function MaxAlign(align: nat, keys: seq<Key>, ord: seq<nat>): nat
    requires ValidOrder(keys, ord)
  {
    if ord == [] then align
    else
      var prev := MaxAlign(align, keys, ord[..|ord| - 1]);
      var k := keys[ord[|ord| - 1]];
      if k.size > 0 && k.align > prev then k.align else prev
  }

  /** The limit a bridge window ends up with. */
  ghost function MinLimit(limit: nat, keys: seq<Key>, limits: seq<nat>, ord: seq<nat>): nat
    requires ValidOrder(keys, ord) && |limits| == |keys|
  {
    if ord == [] then limit
    else
      var prev := MinLimit(limit, keys, limits, ord[..|ord| - 1]);
      var i := ord[|ord| - 1];
      if keys[i].size > 0 && limits[i] < prev then limits[i] else prev
  }

  /** Does a resource whose turn comes at `base` fit below its own and the window's limit? */
  predicate FitsAt(io: bool, base: nat, key: Key, limit: nat, windowLimit: nat) {
    PlaceAt(io, base, key.align) + key.size - 1 <= if limit > windowLimit then windowLimit else limit
  }

  /** Allocation pass: the local `base` after the resources `ord` have been visited. */
  ghost function AllocBase(io: bool, base: nat, windowLimit: nat, keys: seq<Key>, limits: seq<nat>, ord: seq<nat>): nat
    requires ValidOrder(keys, ord) && |limits| == |keys|
  {
    if ord == [] then base
    else
      var prev := AllocBase(io, base, windowLimit, keys, limits, ord[..|ord| - 1]);
      var i := ord[|ord| - 1];
      if keys[i].size == 0 then prev
      else if FitsAt(io, prev, keys[i], limits[i], windowLimit) then PlaceAt(io, prev, keys[i].align) + keys[i].size
      else Bump(io, prev)
  }

  /** The `j`-th resource visited is non-empty and is given an address. */
  ghost predicate Placed(io: bool, base: nat, windowLimit: nat, keys: seq<Key>, limits: seq<nat>, ord: seq<nat>, j: nat)
    requires ValidOrder(keys, ord) && |limits| == |keys| && j < |ord|
  {
    && keys[ord[j]].size > 0
    && FitsAt(io, AllocBase(io, base, windowLimit, keys, limits, ord[..j]), keys[ord[j]], limits[ord[j]], windowLimit)
  }

  ghost function AddressOf(io: bool, base: nat, windowLimit: nat, keys: seq<Key>, limits: seq<nat>, ord: seq<nat>,
                           j: nat): nat
    requires ValidOrder(keys, ord) && |limits| == |keys| && j < |ord|
  {
    PlaceAt(io, AllocBase(io, base, windowLimit, keys, limits, ord[..j]), keys[ord[j]].align)
  }

  // ----- the alias rule

  /** The branch meant for the VGA range 0x3b0-0x3df never runs: every such port has one
      of the bits 0x300 set, so the alias branch has already moved past it. */
  lemma VgaBranchIsDead(base: nat)
    requires base / 0x100 % 4 == 0
    ensures !(0x3b0 <= base <= 0x3df)
  {}

  lemma BumpProperties(io: bool, base: nat)
    ensures base <= Bump(io, base) < base + 0x400
    ensures io ==> Bump(io, base) % 0x400 < 0x100
  {}

  /** Of all ports from `base` on whose bits 8 and 9 are clear, the alias rule takes the
      first. */
  lemma BumpIsLeast(base: nat, port: nat)
    ensures Bump(true, base) % 0x400 < 0x100
    ensures base <= port && port % 0x400 < 0x100 ==> Bump(true, base) <= port
  {
    var q, p := base / 0x400, port / 0x400;
    if base <= port && port % 0x400 < 0x100 && base / 0x100 % 4 != 0 {
      assert base % 0x400 >= 0x100;
      assert p > q;
    }
  }

  lemma BumpShift(io: bool, b: nat, v: nat)
    requires io ==> b % 0x400 == 0
    ensures Bump(io, b + v) == b + Bump(io, v)
  {
    if io {
      var k := b / 0x400;
      assert b == k * 0x400;
      assert (b + v) / 0x400 == k + v / 0x400;
      assert (b + v) / 0x100 == 4 * k + v / 0x100;
    }
  }

  lemma BumpMonotone(io: bool, v: nat, w: nat)
    requires v <= w
    ensures v <= Bump(io, v) <= Bump(io, w)
  {
    if io {
      BumpByBlock(v);
      BumpByBlock(w);
      hide Bump;
      if v / 0x400 < w / 0x400 {
        assert v / 0x400 * 0x400 + 0x400 <= w / 0x400 * 0x400;
      }
    }
  }

  /** The alias rule in terms of the block and the offset in it. */
  lemma BumpByBlock(v: nat)
    ensures Bump(true, v) == if v % 0x400 >= 0x100 then v / 0x400 * 0x400 + 0x400 else v
    ensures v == v / 0x400 * 0x400 + v % 0x400
  {
    DivShift(4 * (v / 0x400), v % 0x400, 0x100);
    VgaByBlock(v);
  }

  lemma VgaByBlock(v: nat)
    ensures v / 0x100 % 4 == v % 0x400 / 0x100
  {}

  /** Raising the start of the search never lowers the address found. */
  lemma PlaceAtMonotone(io: bool, v: nat, w: nat, align: nat)
    requires v <= w
    ensures PlaceAt(io, v, align) <= PlaceAt(io, w, align)
    ensures v <= Bump(io, v) <= PlaceAt(io, v, align)
    ensures RoundUp(v, align) <= PlaceAt(io, v, align)
    ensures PlaceAt(io, v, align) % Pow2(align) == 0
  {
    hide Bump, RoundUp, Pow2;
    BumpMonotone(io, v, w);
    RoundUpMonotone(Bump(io, v), Bump(io, w), align);
    RoundUpMonotone(v, Bump(io, v), align);
    RoundUpProperties(Bump(io, v), align);
  }

  lemma PlaceAtShift(io: bool, b: nat, v: nat, windowAlign: nat, align: nat)
    requires align <= windowAlign && WindowAligned(io, b, windowAlign)
    ensures PlaceAt(io, b + v, align) == b + PlaceAt(io, v, align)
  {
    MultipleOfSmaller(b, windowAlign, align);
    BumpShift(io, b, v);
    RoundUpShift(b, Bump(io, v), align);
  }

  // ----- sizing pass

  /** The three running values of the sizing loop after one more resource. */
  lemma FoldStep(io: bool, start: nat, align: nat, limit: nat, keys: seq<Key>, limits: seq<nat>, ord: seq<nat>, m: nat)
    requires ValidOrder(keys, ord) && |limits| == |keys| && m < |ord|
    ensures var k := keys[ord[m]];
            && After(io, start, keys, ord[..m + 1])
               == (if k.size == 0 then After(io, start, keys, ord[..m])
                   else PlaceAt(io, After(io, start, keys, ord[..m]), k.align) + k.size)
            && MaxAlign(align, keys, ord[..m + 1])
               == (var a := MaxAlign(align, keys, ord[..m]); if k.size > 0 && k.align > a then k.align else a)
            && MinLimit(limit, keys, limits, ord[..m + 1])
               == (var a := MinLimit(limit, keys, limits, ord[..m]);
                   if k.size > 0 && limits[ord[m]] < a then limits[ord[m]] else a)
  {
    assert ord[..m + 1][..m] == ord[..m];
  }

  lemma {:induction false} AfterMonotone(io: bool, base: nat, keys: seq<Key>, ord: seq<nat>, m: nat)
    requires ValidOrder(keys, ord) && m <= |ord|
    ensures base <= After(io, base, keys, ord[..m]) <= After(io, base, keys, ord)
  {
    if m < |ord| {
      var shorter := ord[..|ord| - 1];
      assert shorter[..m] == ord[..m];
      AfterMonotone(io, base, keys, shorter, m);
      var k := keys[ord[|ord| - 1]];
      PlaceAtMonotone(io, After(io, base, keys, shorter), After(io, base, keys, shorter), k.align);
    } else {
      assert ord[..m] == ord;
      if m > 0 {
        AfterMonotone(io, base, keys, ord, m - 1);
      }
    }
  }

  lemma {:induction false} MaxAlignProperties(align: nat, keys: seq<Key>, ord: seq<nat>)
    requires ValidOrder(keys, ord)
    ensures MaxAlign(align, keys, ord) >= align
    ensures forall j | 0 <= j < |ord| && keys[ord[j]].size > 0 :: keys[ord[j]].align <= MaxAlign(align, keys, ord)
    ensures MaxAlign(align, keys, ord) == align ||
            exists j :: 0 <= j < |ord| && keys[ord[j]].size > 0 && keys[ord[j]].align == MaxAlign(align, keys, ord)
  {
    if ord != [] {
      var n := |ord| - 1;
      MaxAlignProperties(align, keys, ord[..n]);
      forall j | 0 <= j < |ord| && keys[ord[j]].size > 0
        ensures keys[ord[j]].align <= MaxAlign(align, keys, ord)
      {
        if j < n { assert ord[..n][j] == ord[j]; }
      }
      var a := MaxAlign(align, keys, ord[..n]);
      if a != align && MaxAlign(align, keys, ord) == a {
        var j :| 0 <= j < n && keys[ord[..n][j]].size > 0 && keys[ord[..n][j]].align == a;
        assert keys[ord[j]].align == a;
      }
    }
  }

  lemma {:induction false} MinLimitProperties(limit: nat, keys: seq<Key>, limits: seq<nat>, ord: seq<nat>)
    requires ValidOrder(keys, ord) && |limits| == |keys|
    ensures MinLimit(limit, keys, limits, ord) <= limit
    ensures forall j | 0 <= j < |ord| && keys[ord[j]].size > 0 :: MinLimit(limit, keys, limits, ord) <= limits[ord[j]]
    ensures MinLimit(limit, keys, limits, ord) == limit ||
            exists j :: 0 <= j < |ord| && keys[ord[j]].size > 0 && limits[ord[j]] == MinLimit(limit, keys, limits, ord)
  {
    if ord != [] {
      var n := |ord| - 1;
      MinLimitProperties(limit, keys, limits, ord[..n]);
      var a := MinLimit(limit, keys, limits, ord[..n]);
      if a != limit && MinLimit(limit, keys, limits, ord) == a {
        var j :| 0 <= j < n && keys[ord[..n][j]].size > 0 && limits[ord[..n][j]] == a;
        assert limits[ord[j]] == a;
      }
      forall j | 0 <= j < |ord| && keys[ord[j]].size > 0
        ensures MinLimit(limit, keys, limits, ord) <= limits[ord[j]]
      {
        if j < n { assert ord[..n][j] == ord[j]; }
      }
    }
  }

  /** The size `round(end, gran) - round(base, align)` never goes below zero, although
      `align` may have been raised after the walk started. */
  lemma WindowSizeNonNegative(io: bool, base: nat, align: nat, gran: nat, keys: seq<Key>, ord: seq<nat>)
    requires ValidOrder(keys, ord)
    ensures RoundUp(After(io, RoundUp(base, align), keys, ord), gran) >= RoundUp(base, MaxAlign(align, keys, ord))
  {
    var start, top := RoundUp(base, align), MaxAlign(align, keys, ord);
    var end := After(io, start, keys, ord);
    RoundUpProperties(base, align);
    RoundUpProperties(end, gran);
    MaxAlignProperties(align, keys, ord);
    AfterMonotone(io, start, keys, ord, 0);
    if top != align {
      var j :| 0 <= j < |ord| && keys[ord[j]].size > 0 && keys[ord[j]].align == top;
      AfterMonotone(io, start, keys, ord[..j], 0);
      AfterMonotone(io, start, keys, ord, j + 1);
      assert ord[..j + 1][..j] == ord[..j];
      PlaceAtMonotone(io, base, After(io, start, keys, ord[..j]), top);
    }
  }

  // ----- allocation pass on one bus

  lemma {:induction false} AllocMonotone(io: bool, base: nat, windowLimit: nat, keys: seq<Key>, limits: seq<nat>,
                                         ord: seq<nat>, m: nat)
    requires ValidOrder(keys, ord) && |limits| == |keys| && m <= |ord|
    ensures base <= AllocBase(io, base, windowLimit, keys, limits, ord[..m])
                 <= AllocBase(io, base, windowLimit, keys, limits, ord)
  {
    if m < |ord| {
      var shorter := ord[..|ord| - 1];
      assert shorter[..m] == ord[..m];
      AllocMonotone(io, base, windowLimit, keys, limits, shorter, m);
      var prev := AllocBase(io, base, windowLimit, keys, limits, shorter);
      PlaceAtMonotone(io, prev, prev, keys[ord[|ord| - 1]].align);
    } else {
      assert ord[..m] == ord;
      if m > 0 { AllocMonotone(io, base, windowLimit, keys, limits, ord, m - 1); }
    }
  }

  lemma AllocBaseStep(io: bool, base: nat, windowLimit: nat, keys: seq<Key>, limits: seq<nat>, ord: seq<nat>, m: nat)
    requires ValidOrder(keys, ord) && |limits| == |keys| && m < |ord|
    ensures var prev := AllocBase(io, base, windowLimit, keys, limits, ord[..m]);
            var k := keys[ord[m]];
            AllocBase(io, base, windowLimit, keys, limits, ord[..m + 1])
            == if k.size == 0 then prev
               else if FitsAt(io, prev, k, limits[ord[m]], windowLimit) then PlaceAt(io, prev, k.align) + k.size
               else Bump(io, prev)
  {
    assert ord[..m + 1][..m] == ord[..m];
  }

  /** Whatever mix of resources fits, those that are placed are aligned, lie inside
      [base, windowLimit] and below their own limit, and do not overlap: each one ends
      before the next one placed begins. */
  lemma OneBusPlacement(io: bool, base: nat, windowLimit: nat, keys: seq<Key>, limits: seq<nat>, ord: seq<nat>,
                        j: nat, k: nat)
    requires ValidOrder(keys, ord) && |limits| == |keys| && j < |ord|
    requires Placed(io, base, windowLimit, keys, limits, ord, j)
    ensures var a := AddressOf(io, base, windowLimit, keys, limits, ord, j);
            && a % Pow2(keys[ord[j]].align) == 0
            && base <= a
            && a + keys[ord[j]].size - 1 <= windowLimit
            && a + keys[ord[j]].size - 1 <= limits[ord[j]]
            && (j < k < |ord| && Placed(io, base, windowLimit, keys, limits, ord, k) ==>
                  a + keys[ord[j]].size <= AddressOf(io, base, windowLimit, keys, limits, ord, k))
  {
    var before := AllocBase(io, base, windowLimit, keys, limits, ord[..j]);
    AllocMonotone(io, base, windowLimit, keys, limits, ord, j);
    PlaceAtMonotone(io, before, before, keys[ord[j]].align);
    if j < k < |ord| && Placed(io, base, windowLimit, keys, limits, ord, k) {
      assert ord[..k][..j + 1] == ord[..j + 1] && ord[..j + 1][..j] == ord[..j];
      AllocMonotone(io, base, windowLimit, keys, limits, ord[..k], j + 1);
      var later := AllocBase(io, base, windowLimit, keys, limits, ord[..k]);
      PlaceAtMonotone(io, later, later, keys[ord[k]].align);
    }
  }

  /** One bus of the two-pass argument.  If the window starts at a multiple of its
      alignment (and, for I/O, of 0x400), every non-empty resource is placed exactly when
      the extent measured from 0 fits below the limit, and then each lands at the window
      base plus the offset the sizing pass gave it. */
  lemma {:induction false} OneBusTwoPass(io: bool, base: nat, windowAlign: nat, windowLimit: nat,
                                         keys: seq<Key>, limits: seq<nat>, ord: seq<nat>)
    requires ValidOrder(keys, ord) && |limits| == |keys|
    requires WindowAligned(io, base, windowAlign)
    requires forall j | 0 <= j < |ord| && keys[ord[j]].size > 0 ::
               keys[ord[j]].align <= windowAlign && windowLimit <= limits[ord[j]]
    ensures AllPlaced(io, base, windowLimit, keys, limits, ord) <==>
              ExtentFits(base, After(io, 0, keys, ord), windowLimit)
    ensures ExtentFits(base, After(io, 0, keys, ord), windowLimit) ==>
              && AllocBase(io, base, windowLimit, keys, limits, ord) == base + After(io, 0, keys, ord)
              && forall j | 0 <= j < |ord| && keys[ord[j]].size > 0 ::
                   AddressOf(io, base, windowLimit, keys, limits, ord, j) == base + OffsetOf(io, 0, keys, ord, j)
  {
    hide RoundTo, Bump, Precedes, WindowAligned, PlaceAt, AllPlaced, Pow2, AddressOf, OffsetOf, Placed;
    if ord != [] {
      var n := |ord| - 1;
      var init := ord[..n];
      SamePlaces(io, base, windowLimit, keys, limits, ord);
      OneBusTwoPass(io, base, windowAlign, windowLimit, keys, limits, init);
      PlacedPrefix(io, base, windowLimit, keys, limits, ord);
      LastPlace(io, base, windowLimit, keys, limits, ord);
      var v, k := After(io, 0, keys, init), keys[ord[n]];
      if k.size > 0 {
        PlaceAtShift(io, base, v, windowAlign, k.align);
        PlaceAtMonotone(io, v, v, k.align);
      }
    } else {
      NothingPlaced(io, base, windowLimit, keys, limits);
    }
  }

  /** The places of all but the last resource do not depend on the last. */
  lemma SamePlaces(io: bool, base: nat, windowLimit: nat, keys: seq<Key>, limits: seq<nat>, ord: seq<nat>)
    requires ValidOrder(keys, ord) && |limits| == |keys| && ord != []
    ensures var n := |ord| - 1;
            forall j | 0 <= j < n ::
              && ord[..n][j] == ord[j]
              && AddressOf(io, base, windowLimit, keys, limits, ord, j)
                 == AddressOf(io, base, windowLimit, keys, limits, ord[..n], j)
              && OffsetOf(io, 0, keys, ord, j) == OffsetOf(io, 0, keys, ord[..n], j)
  {
    hide PlaceAt, AllocBase, After;
    var n := |ord| - 1;
    assert forall j | 0 <= j < n :: ord[..n][j] == ord[j] && ord[..n][..j] == ord[..j];
  }

  /** The place of the last one. */
  lemma LastPlace(io: bool, base: nat, windowLimit: nat, keys: seq<Key>, limits: seq<nat>, ord: seq<nat>)
    requires ValidOrder(keys, ord) && |limits| == |keys| && ord != []
    ensures var n := |ord| - 1;
            var prev := AllocBase(io, base, windowLimit, keys, limits, ord[..n]);
            && AddressOf(io, base, windowLimit, keys, limits, ord, n) == PlaceAt(io, prev, keys[ord[n]].align)
            && OffsetOf(io, 0, keys, ord, n) == PlaceAt(io, After(io, 0, keys, ord[..n]), keys[ord[n]].align)
            && (Placed(io, base, windowLimit, keys, limits, ord, n)
                <==> keys[ord[n]].size > 0 && FitsAt(io, prev, keys[ord[n]], limits[ord[n]], windowLimit))
  {
    hide PlaceAt, AllocBase, After, FitsAt;
  }

  /** The window starts at a multiple of its alignment, an I/O window also of 0x400. */
  predicate WindowAligned(io: bool, base: nat, align: nat) {
    Aligned(base, align) && (io ==> base % 0x400 == 0)
  }

  lemma NothingPlaced(io: bool, base: nat, windowLimit: nat, keys: seq<Key>, limits: seq<nat>)
    requires |limits| == |keys|
    ensures AllPlaced(io, base, windowLimit, keys, limits, [])
  {}

  /** Every non-empty resource of the bus is given an address. */
  ghost predicate AllPlaced(io: bool, base: nat, windowLimit: nat, keys: seq<Key>, limits: seq<nat>, ord: seq<nat>)
    requires ValidOrder(keys, ord) && |limits| == |keys|
  {
    forall j | 0 <= j < |ord| && keys[ord[j]].size > 0 :: Placed(io, base, windowLimit, keys, limits, ord, j)
  }

  predicate ExtentFits(base: nat, extent: nat, windowLimit: nat) {
    extent == 0 || base + extent - 1 <= windowLimit
  }

  lemma PlacedPrefix(io: bool, base: nat, windowLimit: nat, keys: seq<Key>, limits: seq<nat>, ord: seq<nat>)
    requires ValidOrder(keys, ord) && |limits| == |keys| && ord != []
    ensures var n := |ord| - 1;
            AllPlaced(io, base, windowLimit, keys, limits, ord) <==>
              AllPlaced(io, base, windowLimit, keys, limits, ord[..n])
              && (keys[ord[n]].size > 0 ==> Placed(io, base, windowLimit, keys, limits, ord, n))
  {
    hide AllocBase, FitsAt;
    var n := |ord| - 1;
    assert forall j | 0 <= j < n :: ord[..n][j] == ord[j] && ord[..n][..j] == ord[..j];
    assert forall j | 0 <= j < n ::
      Placed(io, base, windowLimit, keys, limits, ord, j) == Placed(io, base, windowLimit, keys, limits, ord[..n], j);
  }

  // ----- memory is packed

  /** The sizes of the resources visited. */
  ghost function Sum(keys: seq<Key>, ord: seq<nat>): nat
    requires ValidOrder(keys, ord)
  {
    if ord == [] then 0 else Sum(keys, ord[..|ord| - 1]) + keys[ord[|ord| - 1]].size
  }

  /** Memory whose sizes are multiples of their alignments is laid out without gaps, because
      the alignments come in decreasing order. */
  lemma {:induction false} MemoryPacked(keys: seq<Key>, ord: seq<nat>, p: nat)
    requires ValidOrder(keys, ord)
    requires forall a, b | 0 <= a < b < |ord| :: keys[ord[a]].align >= keys[ord[b]].align
    requires forall i | 0 <= i < |ord| :: p <= keys[ord[i]].align && keys[ord[i]].size % Pow2(keys[ord[i]].align) == 0
    ensures After(false, 0, keys, ord) == Sum(keys, ord) && Sum(keys, ord) % Pow2(p) == 0
  {
    if ord == [] {
      MultipleOf(0, Pow2(p));
    } else {
      var n := |ord| - 1;
      var init, k := ord[..n], keys[ord[n]];
      assert forall i | 0 <= i < n :: init[i] == ord[i];
      MemoryPacked(keys, init, k.align);
      RoundUpFixpoint(Sum(keys, init), k.align);
      MultipleOfSmaller(Sum(keys, init), k.align, p);
      MultipleOfSmaller(k.size, k.align, p);
      SumOfMultiples(Sum(keys, init), k.size, Pow2(p));
    }
  }

  // ----- I/O alias freedom

  lemma BumpMovesToBlockStart(base: nat)
    ensures Bump(true, base) != base ==> Bump(true, base) % 0x100 == 0
    ensures (Bump(true, base) - Bump(true, base) % 0x400) % 0x400 == 0
  {
    var q, b := base / 0x400, Bump(true, base);
    if base / 0x100 % 4 != 0 {
      assert b == (4 * q + 4) * 0x100;
      MultipleOf(4 * q + 4, 0x100);
    } else {
      VgaBranchIsDead(base);
    }
    assert b - b % 0x400 == (b / 0x400) * 0x400;
    MultipleOf(b / 0x400, 0x400);
  }

  lemma BumpStaysAligned(prev: nat, p: nat)
    requires p <= 8 && prev % Pow2(p) == 0
    ensures Bump(true, prev) % Pow2(p) == 0
  {
    SmallPowers();
    BumpMovesToBlockStart(prev);
    if Bump(true, prev) != prev { MultipleOfSmaller(Bump(true, prev), 8, p); }
  }

  /** One resource of alignment at least `p` leaves the local base a multiple of `2^p`. */
  lemma StepStaysAligned(prev: nat, key: Key, p: nat)
    requires p <= 8 && prev % Pow2(p) == 0
    requires p <= key.align && key.size % Pow2(key.align) == 0
    ensures Bump(true, prev) % Pow2(p) == 0
    ensures (PlaceAt(true, prev, key.align) + key.size) % Pow2(p) == 0
  {
    BumpStaysAligned(prev, p);
    RoundUpProperties(Bump(true, prev), key.align);
    MultipleOfSmaller(PlaceAt(true, prev, key.align), key.align, p);
    MultipleOfSmaller(key.size, key.align, p);
    SumOfMultiples(PlaceAt(true, prev, key.align), key.size, Pow2(p));
  }

  /** Resources come by decreasing alignment and their sizes are multiples of it, so
      the local base stays a multiple of the alignment of whatever is still to come. */
  lemma {:induction false} BaseStaysAligned(base: nat, windowLimit: nat, keys: seq<Key>, limits: seq<nat>,
                                            ord: seq<nat>, p: nat)
    requires ValidOrder(keys, ord) && |limits| == |keys|
    requires p <= 8 && base % 0x100 == 0
    requires forall j | 0 <= j < |ord| :: keys[ord[j]].align >= p && keys[ord[j]].size % Pow2(keys[ord[j]].align) == 0
    ensures AllocBase(true, base, windowLimit, keys, limits, ord) % Pow2(p) == 0
  {
    if ord == [] {
      SmallPowers();
      MultipleOfSmaller(base, 8, p);
    } else {
      var n := |ord| - 1;
      assert forall j | 0 <= j < n :: ord[..n][j] == ord[j];
      BaseStaysAligned(base, windowLimit, keys, limits, ord[..n], p);
      StepStaysAligned(AllocBase(true, base, windowLimit, keys, limits, ord[..n]), keys[ord[n]], p);
    }
  }

  lemma RoomInBlock(b: nat, block: nat, p: nat)
    requires p <= 8 && b % Pow2(p) == 0 && block % 0x400 == 0 && b < block + 0x100
    ensures b + Pow2(p) <= block + 0x100
  {
    SmallPowers();
    MultipleOfSmaller(block, 10, p);
    MultipleOfSmaller(0x100, 8, p);
    SumOfMultiples(block, 0x100, Pow2(p));
    NextMultiple(b, block + 0x100, Pow2(p));
  }

  /** A base that is a multiple of `2^p` is moved by the alias rule alone, and the `2^p`
      ports from there stay below the 0x100 mark of their block. */
  lemma AliasFreeFrom(prev: nat, p: nat)
    requires p <= 8 && prev % Pow2(p) == 0
    ensures PlaceAt(true, prev, p) % 0x400 + Pow2(p) <= 0x100
  {
    var b := Bump(true, prev);
    BumpStaysAligned(prev, p);
    BumpProperties(true, prev);
    RoundUpFixpoint(b, p);
    BumpMovesToBlockStart(prev);
    RoomInBlock(b, b - b % 0x400, p);
  }

  /** A naturally aligned I/O resource of at most 0x100 ports lies wholly in the first
      0x100 ports of one 0x400 block.  The alias rule is applied before rounding, so this
      needs the order by decreasing alignment: then rounding has nothing left to do. */
  lemma IoAliasFree(base: nat, windowLimit: nat, keys: seq<Key>, limits: seq<nat>, ord: seq<nat>, j: nat)
    requires ValidOrder(keys, ord) && |limits| == |keys| && j < |ord|
    requires base % 0x100 == 0
    requires forall i | 0 <= i < |ord| :: keys[ord[i]].size % Pow2(keys[ord[i]].align) == 0
    requires forall a, b | 0 <= a < b < |ord| :: Precedes(keys, ord[a], ord[b])
    requires keys[ord[j]].align <= 8 && keys[ord[j]].size == Pow2(keys[ord[j]].align)
    ensures AddressOf(true, base, windowLimit, keys, limits, ord, j) % 0x400 + keys[ord[j]].size <= 0x100
  {
    var p := keys[ord[j]].align;
    assert forall i | 0 <= i < j :: ord[..j][i] == ord[i] && Precedes(keys, ord[i], ord[j]);
    BaseStaysAligned(base, windowLimit, keys, limits, ord[..j], p);
    AliasFreeFrom(AllocBase(true, base, windowLimit, keys, limits, ord[..j]), p);
  }
}
