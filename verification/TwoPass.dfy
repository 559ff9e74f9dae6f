/** Why the two passes of the resource allocator fit together: the sizes and alignments
    the sizing pass gives the bridge windows are enough for the allocation pass. */
module TwoPass {
  import opened Wrappers
  import opened PowersOfTwo
  import opened ResourceOrder
  import opened ResourceTree
  import opened BusLayout
  import opened AllocatorState
  import opened SizingPass
  import opened AllocationPass

  // ----- what the sizing pass establishes

  /** In `s` the window has the alignment, limit and size that the bus behind it needs,
      measured from where the window started in `s0`. */
  ghost predicate WindowSized(bridge: Resource, bus: Bus, f: Filter, s0: State, s: State) {
    var rs := BusResources(bus, f);
    var keys := KeysIn(rs, s);
    var ord := Order(keys, None);
    var b0, b := Get(s0, bridge), Get(s, bridge);
    && b.align == MaxAlign(b0.align, keys, ord)
    && b.limit == MinLimit(b0.limit, keys, LimitsIn(rs, s), ord)
    && b.size == RoundUp(After(IsIo(f), RoundUp(b0.base, b0.align), keys, ord), bridge.gran) - RoundUp(b0.base, b.align)
  }

  /** A window its bus never places.  Either it is not among the resources of the bus: its
      device is disabled, or the window is itself subtractive, so that what is behind it
      stands in its place, or it comes after a missing subtractive link of its device.  Or
      it is fixed. */
  predicate Stranded(bus: Bus, f: Filter, window: Resource) {
    window !in BusResources(bus, f) || window.fixed
  }

  /** Every window below the bus is sized, and a stranded one is still where it was. */
  ghost predicate TreeSized(bus: Bus, f: Filter, s0: State, s: State)
    decreases bus
  {
    SizedUpTo(bus, f, |Windows(bus, f)|, s0, s)
    && forall i | 0 <= i < |Windows(bus, f)| && Stranded(bus, f, Windows(bus, f)[i].res) ::
         Get(s, Windows(bus, f)[i].res).base == Get(s0, Windows(bus, f)[i].res).base
  }

  ghost predicate SizedUpTo(bus: Bus, f: Filter, k: nat, s0: State, s: State)
    requires k <= |Windows(bus, f)|
    decreases bus, 0
  {
    var ws := Windows(bus, f);
    forall i | 0 <= i < k ::
      && WindowSized(ws[i].res, ws[i].link, SubFilter(f, ws[i].res), s0, s)
      && TreeSized(ws[i].link, SubFilter(f, ws[i].res), s0, s)
  }

  ghost predicate SameNeeds(d: set<Resource>, s: State, t: State) {
    forall r | r in d ::
      Get(s, r).align == Get(t, r).align && Get(s, r).size == Get(t, r).size && Get(s, r).limit == Get(t, r).limit
  }

  lemma WindowSizedFrame(bridge: Resource, bus: Bus, f: Filter, s0: State, t0: State, s: State, t: State)
    requires WindowSized(bridge, bus, f, s0, s) && Get(s0, bridge) == Get(t0, bridge)
    requires SameNeeds(Footprint(bus, f) + {bridge}, s, t)
    ensures WindowSized(bridge, bus, f, t0, t)
  {
    hide Footprint, Order, BusResources, RoundTo, After, MaxAlign, MinLimit;
    LevelWithin(bus, f);
    SameKeys(BusResources(bus, f), s, t);
    SameLimits(BusResources(bus, f), s, t);
  }

  lemma {:induction false} TreeSizedFrame(bus: Bus, f: Filter, s0: State, t0: State, s: State, t: State)
    requires TreeSized(bus, f, s0, s)
    requires Agree(Footprint(bus, f), s0, t0) && Agree(Footprint(bus, f), s, t)
    ensures TreeSized(bus, f, t0, t)
    decreases bus
  {
    hide Footprint, WindowSized, BusResources, Stranded;
    var ws := Windows(bus, f);
    forall i | 0 <= i < |ws|
      ensures WindowSized(ws[i].res, ws[i].link, SubFilter(f, ws[i].res), t0, t)
      ensures TreeSized(ws[i].link, SubFilter(f, ws[i].res), t0, t)
      ensures Get(s0, ws[i].res) == Get(t0, ws[i].res) && Get(s, ws[i].res) == Get(t, ws[i].res)
    {
      WindowWithin(bus, f, i);
      WindowSizedFrame(ws[i].res, ws[i].link, SubFilter(f, ws[i].res), s0, t0, s, t);
      TreeSizedFrame(ws[i].link, SubFilter(f, ws[i].res), s0, t0, s, t);
    }
  }

  /** The sizing pass sizes the window it is called for and every window below. */
  lemma {:induction false} ComputeSizes(bus: Bus, bridge: Resource, f: Filter, s: State)
    requires WellFormed(bus, f) && bridge !in Footprint(bus, f)
    ensures WindowSized(bridge, bus, f, s, Compute(bus, bridge, f, s))
    ensures TreeSized(bus, f, s, Compute(bus, bridge, f, s))
    decreases bus, |Windows(bus, f)| + 1
  {
    hide Footprint, WellFormed, WindowSized, SizeLevel, Compute, BusResources, ComputeWindows, RoundTo, OnlyChanges,
         Stranded;
    var n := |Windows(bus, f)|;
    var t := ComputeWindows(bus, f, n, s);
    var u := Compute(bus, bridge, f, s);
    ComputeWindowsSizes(bus, f, n, s);
    ComputeWindowsOnlyChanges(bus, f, n, s);
    BehindWithin(bus, f, n);
    Unchanged(Behind(bus, f, n), s, t, bridge);
    LevelOf(bus, f);
    SizeLevelSizes(bus, bridge, f, t);
    ComputeUnfold(bus, bridge, f, s);
    WindowSizedFrameStart(bridge, bus, f, t, s, u);
    var ws := Windows(bus, f);
    forall i | 0 <= i < n
      ensures WindowSized(ws[i].res, ws[i].link, SubFilter(f, ws[i].res), s, u)
      ensures TreeSized(ws[i].link, SubFilter(f, ws[i].res), s, u)
      ensures Stranded(bus, f, ws[i].res) ==> Get(u, ws[i].res).base == Get(s, ws[i].res).base
    {
      var mine := Footprint(ws[i].link, SubFilter(f, ws[i].res));
      LevelApart(bus, f, i);
      SizeLevelOnlyChanges(bus, bridge, f, RoundUp(Get(s, bridge).base, Get(s, bridge).align), t);
      assert mine !! ToSet(BusResources(bus, f)) + {bridge};
      AgreeApart(mine, ToSet(BusResources(bus, f)) + {bridge}, t, u);
      WindowSizedFrame(ws[i].res, ws[i].link, SubFilter(f, ws[i].res), s, s, t, u);
      TreeSizedFrame(ws[i].link, SubFilter(f, ws[i].res), s, s, t, u);
      ComputeWindowsKeepsBase(bus, f, n, s, i);
    }
  }

  /** The recursive calls change the size, alignment and limit of a window, not its base. */
  lemma {:induction false} ComputeWindowsKeepsBase(bus: Bus, f: Filter, k: nat, s: State, i: nat)
    requires WellFormed(bus, f) && k <= |Windows(bus, f)| && i < |Windows(bus, f)|
    ensures Get(ComputeWindows(bus, f, k, s), Windows(bus, f)[i].res).base == Get(s, Windows(bus, f)[i].res).base
    decreases bus, k
  {
    hide Footprint, WellFormed, OnlyChanges, Compute, IsWindow, ChildrenWindows;
    if k > 0 {
      var w, v := Windows(bus, f)[k - 1], Windows(bus, f)[i].res;
      var t := ComputeWindows(bus, f, k - 1, s);
      ComputeWindowsKeepsBase(bus, f, k - 1, s, i);
      LevelApart(bus, f, k - 1);
      if i == k - 1 {
        ComputeKeepsBase(w.link, w.res, SubFilter(f, w.res), t);
      } else {
        WindowsApart(bus, f, k - 1, i);
        ComputeOnlyChanges(w.link, w.res, SubFilter(f, w.res), t);
        Unchanged(Footprint(w.link, SubFilter(f, w.res)) + {w.res}, t, Compute(w.link, w.res, SubFilter(f, w.res), t),
                  v);
      }
    }
  }

  lemma ComputeKeepsBase(bus: Bus, bridge: Resource, f: Filter, s: State)
    requires WellFormed(bus, f) && bridge !in Footprint(bus, f)
    ensures Get(Compute(bus, bridge, f, s), bridge).base == Get(s, bridge).base
  {
    hide Footprint, WellFormed, OnlyChanges, BusResources, LaidOut;
    var t := ComputeWindows(bus, f, |Windows(bus, f)|, s);
    ComputeWindowsOnlyChanges(bus, f, |Windows(bus, f)|, s);
    BehindWithin(bus, f, |Windows(bus, f)|);
    Unchanged(Behind(bus, f, |Windows(bus, f)|), s, t, bridge);
    LevelOf(bus, f);
    var rs := BusResources(bus, f);
    SizeRunKeepsBase(IsIo(f), bridge, rs, Order(KeysIn(rs, t), None), |Order(KeysIn(rs, t), None)|,
                     RoundUp(Get(s, bridge).base, Get(s, bridge).align), t);
  }

  lemma {:induction false} SizeRunKeepsBase(io: bool, bridge: Resource, rs: seq<Resource>, ord: seq<nat>, m: nat,
                                            start: nat, s: State)
    requires m <= |ord| && (forall k | 0 <= k < |ord| :: ord[k] < |rs|) && bridge !in rs
    ensures Get(SizeRun(io, bridge, rs, ord, m, start, s).1, bridge).base == Get(s, bridge).base
  {
    hide RoundTo, Bump;
    if m > 0 {
      SizeRunKeepsBase(io, bridge, rs, ord, m - 1, start, s);
      assert rs[ord[m - 1]] in rs;
    }
  }

  lemma ComputeUnfold(bus: Bus, bridge: Resource, f: Filter, s: State)
    ensures var t := ComputeWindows(bus, f, |Windows(bus, f)|, s);
            Get(s, bridge) == Get(t, bridge) ==>
              Compute(bus, bridge, f, s)
                == SizeLevel(bus, bridge, f, RoundUp(Get(t, bridge).base, Get(t, bridge).align), t)
  {}

  lemma WindowSizedFrameStart(bridge: Resource, bus: Bus, f: Filter, s0: State, t0: State, s: State)
    requires WindowSized(bridge, bus, f, s0, s) && Get(s0, bridge) == Get(t0, bridge)
    ensures WindowSized(bridge, bus, f, t0, s)
  {}

  /** The layout of one bus sizes its bridge, and changes no size, alignment or limit of
      a resource other than the bridge. */
  lemma SizeLevelSizes(bus: Bus, bridge: Resource, f: Filter, s: State)
    requires Distinct(BusResources(bus, f)) && bridge !in BusResources(bus, f)
    ensures var t := SizeLevel(bus, bridge, f, RoundUp(Get(s, bridge).base, Get(s, bridge).align), s);
            && WindowSized(bridge, bus, f, s, t)
            && (forall d: set<Resource> | bridge !in d :: SameNeeds(d, s, t))
            && (forall r: Resource | r != bridge && Stranded(bus, f, r) :: Get(t, r).base == Get(s, r).base)
  {
    hide Order, BusResources, RoundTo, After, MaxAlign, MinLimit, SizeRun, OffsetOf, Precedes, LaidOut, Distinct,
         NoRepeats;
    var rs := BusResources(bus, f);
    var io, keys, b := IsIo(f), KeysIn(rs, s), Get(s, bridge);
    var ord, start := Order(keys, None), RoundUp(b.base, b.align);
    OrderVisits(rs, s);
    SizeRunClosed(io, bridge, rs, ord, |ord|, start, s);
    LevelSizeNonNegative(io, bridge, rs, s);
    assert ord[..|ord|] == ord;
    var (end, t) := SizeRun(io, bridge, rs, ord, |ord|, start, s);
    var u := SizeLevel(bus, bridge, f, start, s);
    LaidOutBridge(io, bridge, rs, ord, start, s, t);
    LaidOutKeys(io, bridge, rs, ord, |ord|, start, s, t);
    SameKeys(rs, t, u);
    SameLimits(rs, t, u);
    forall r: Resource | r != bridge
      ensures Get(u, r).align == Get(s, r).align && Get(u, r).size == Get(s, r).size
              && Get(u, r).limit == Get(s, r).limit
      ensures r !in rs || r.fixed ==> Get(u, r).base == Get(s, r).base
    {
      LaidOutAt(io, bridge, rs, ord, start, s, t, r);
    }
  }

  lemma LaidOutBridge(io: bool, bridge: Resource, rs: seq<Resource>, ord: seq<nat>, start: nat, s: State, t: State)
    requires ValidVisit(rs, ord) && bridge !in rs && LaidOut(io, bridge, rs, ord, |ord|, start, s, t)
    ensures Get(t, bridge) == Get(s, bridge).(align := MaxAlign(Get(s, bridge).align, KeysIn(rs, s), ord),
                                              limit := MinLimit(Get(s, bridge).limit, KeysIn(rs, s), LimitsIn(rs, s),
                                                                ord))
  {
    hide OffsetOf, MaxAlign, MinLimit, Distinct, NoRepeats;
    assert ord[..|ord|] == ord;
  }

  /** The layout changes the base of the resources visited, and nothing else of them. */
  lemma LaidOutAt(io: bool, bridge: Resource, rs: seq<Resource>, ord: seq<nat>, start: nat, s: State, t: State,
                  r: Resource)
    requires ValidVisit(rs, ord) && bridge !in rs && LaidOut(io, bridge, rs, ord, |ord|, start, s, t) && r != bridge
    requires forall j | 0 <= j < |ord| :: !rs[ord[j]].fixed
    ensures Get(t, r).align == Get(s, r).align && Get(t, r).size == Get(s, r).size && Get(t, r).limit == Get(s, r).limit
    ensures r !in rs || r.fixed ==> Get(t, r).base == Get(s, r).base
  {
    hide OffsetOf, MaxAlign, MinLimit, Distinct, NoRepeats;
    if j :| 0 <= j < |ord| && rs[ord[j]] == r {
    } else {
      Unchanged({bridge} + (set j | 0 <= j < |ord| :: rs[ord[j]]), s, t, r);
    }
  }

  lemma {:induction false} ComputeWindowsSizes(bus: Bus, f: Filter, k: nat, s: State)
    requires WellFormed(bus, f) && k <= |Windows(bus, f)|
    ensures SizedUpTo(bus, f, k, s, ComputeWindows(bus, f, k, s))
    decreases bus, k
  {
    hide Footprint, WellFormed, WindowSized, Compute, BusResources, TreeSized, IsWindow, ChildrenWindows;
    if k > 0 {
      var ws := Windows(bus, f);
      var w, sub := ws[k - 1], SubFilter(f, ws[k - 1].res);
      var t := ComputeWindows(bus, f, k - 1, s);
      var u := ComputeWindows(bus, f, k, s);
      var mine := Footprint(w.link, sub) + {w.res};
      LevelApart(bus, f, k - 1);
      ComputeWindowsSizes(bus, f, k - 1, s);
      ComputeSizes(w.link, w.res, sub, t);
      // the earlier windows did not touch this one ...
      ComputeWindowsOnlyChanges(bus, f, k - 1, s);
      BehindApart(bus, f, k - 1, k - 1);
      AgreeApart(mine, Behind(bus, f, k - 1), s, t);
      AgreeSym(mine, s, t);
      WindowSizedFrameStart(w.res, w.link, sub, t, s, u);
      TreeSizedFrame(w.link, sub, t, s, u, u);
      // ... and this one does not touch them
      ComputeOnlyChanges(w.link, w.res, sub, t);
      forall i | 0 <= i < k - 1
        ensures WindowSized(ws[i].res, ws[i].link, SubFilter(f, ws[i].res), s, u)
        ensures TreeSized(ws[i].link, SubFilter(f, ws[i].res), s, u)
      {
        WindowsApart(bus, f, i, k - 1);
        AgreeApart(Footprint(ws[i].link, SubFilter(f, ws[i].res)) + {ws[i].res}, mine, t, u);
        WindowSizedFrame(ws[i].res, ws[i].link, SubFilter(f, ws[i].res), s, s, t, u);
        TreeSizedFrame(ws[i].link, SubFilter(f, ws[i].res), s, s, t, u);
      }
    }
  }

  // ----- what the allocation pass needs

  /** How far the resources of a bus reach when laid out from 0. */
  ghost function Extent(bus: Bus, f: Filter, s: State): nat {
    var keys := KeysIn(BusResources(bus, f), s);
    After(IsIo(f), 0, keys, Order(keys, None))
  }

  /** The window is empty, or starts at a multiple of an alignment that suits every
      resource behind it, and its limit is within theirs. */
  ghost predicate Ready(bus: Bus, bridge: Resource, f: Filter, s: State) {
    var rs := BusResources(bus, f);
    var b := Get(s, bridge);
    Extent(bus, f, s) == 0 ||
    (WindowAligned(IsIo(f), b.base, b.align)
     && forall r | r in rs && !r.fixed && Get(s, r).size > 0 ::
          Get(s, r).align <= b.align && b.limit <= Get(s, r).limit)
  }

  /** Memory on one bus, with sizes that are multiples of their alignments, reaches exactly as
      far as its sizes add up to. */
  lemma MemoryExtent(bus: Bus, f: Filter, s: State)
    requires f.kind == Mem
    requires forall r | r in BusResources(bus, f) :: Get(s, r).size % Pow2(Get(s, r).align) == 0
    ensures var keys := KeysIn(BusResources(bus, f), s); Extent(bus, f, s) == Sum(keys, Order(keys, None))
  {
    hide BusResources, Order, After, Sum, Precedes, Pow2;
    var rs := BusResources(bus, f);
    var keys := KeysIn(rs, s);
    OrderIsStableSort(keys);
    forall i | 0 <= i < |keys| ensures keys[i].size % Pow2(keys[i].align) == 0 {
      assert rs[i] in rs;
    }
    MemoryPacked(keys, Order(keys, None), 0);
  }

  lemma {:induction false} ZeroExtent(io: bool, keys: seq<Key>, ord: seq<nat>, j: nat)
    requires ValidOrder(keys, ord) && j < |ord| && After(io, 0, keys, ord) == 0
    ensures keys[ord[j]].size == 0
  {
    hide RoundTo, Bump, Precedes, PlaceAt;
    AfterMonotone(io, 0, keys, ord, j + 1);
    assert ord[..j + 1][..j] == ord[..j];
  }

  lemma BusFitsExactly(bus: Bus, bridge: Resource, f: Filter, s: State)
    requires Ready(bus, bridge, f, s)
    ensures BusFits(bus, bridge, f, s) <==> ExtentFits(Get(s, bridge).base, Extent(bus, f, s), Get(s, bridge).limit)
  {
    hide BusResources, Order, AllocBase, After, Precedes, WindowAligned;
    var rs := BusResources(bus, f);
    var io, keys, limits, b := IsIo(f), KeysIn(rs, s), LimitsIn(rs, s), Get(s, bridge);
    var ord := Order(keys, None);
    OrderIsStableSort(keys);
    if Extent(bus, f, s) == 0 {
      forall j | 0 <= j < |ord| ensures keys[ord[j]].size == 0 {
        ZeroExtent(io, keys, ord, j);
      }
    } else {
      forall j | 0 <= j < |ord| && keys[ord[j]].size > 0
        ensures keys[ord[j]].align <= b.align && b.limit <= limits[ord[j]]
      {
        assert rs[ord[j]] in rs && ord[j] in ord;
      }
      OneBusTwoPass(io, b.base, b.align, b.limit, keys, limits, ord);
    }
  }

  /** A window sized in `s` is ready in `u` if nothing behind it has changed, its limit
      has at most shrunk, and it has been moved to an aligned place. */
  lemma SizedIsReady(bus: Bus, bridge: Resource, f: Filter, s0: State, s: State, u: State)
    requires WindowSized(bridge, bus, f, s0, s) && Agree(Footprint(bus, f), s, u)
    requires Get(u, bridge).align == Get(s, bridge).align && Get(u, bridge).limit <= Get(s, bridge).limit
    requires Extent(bus, f, s) == 0 || WindowAligned(IsIo(f), Get(u, bridge).base, Get(u, bridge).align)
    ensures Extent(bus, f, u) == Extent(bus, f, s) && Ready(bus, bridge, f, u)
  {
    hide Footprint, BusResources, Order, After, Precedes, WindowAligned, RoundTo, MaxAlign, MinLimit;
    var rs := BusResources(bus, f);
    LevelWithin(bus, f);
    SameKeys(rs, s, u);
    var keys, limits := KeysIn(rs, s), LimitsIn(rs, s);
    var ord := Order(keys, None);
    OrderIsStableSort(keys);
    MaxAlignProperties(Get(s0, bridge).align, keys, ord);
    MinLimitProperties(Get(s0, bridge).limit, keys, limits, ord);
    forall r | r in rs && !r.fixed && Get(u, r).size > 0
      ensures Get(u, r).align <= Get(u, bridge).align && Get(u, bridge).limit <= Get(u, r).limit
    {
      var i :| 0 <= i < |rs| && rs[i] == r;
      assert !keys[i].fixed && i in ord;
      var j :| 0 <= j < |ord| && ord[j] == i;
    }
  }

  // ----- what the allocation pass does to one window

  /** On a bus where everything fits, a non-empty window is moved to an aligned place
      inside the window of the bus, and its limit is set to its last address. */
  lemma WindowPlaced(bus: Bus, bridge: Resource, f: Filter, s: State, w: Resource)
    requires Distinct(BusResources(bus, f)) && bridge !in BusResources(bus, f)
    requires w in BusResources(bus, f) && !w.fixed
    ensures var a, c := Get(s, w), Get(AllocBus(bus, bridge, f, s), w);
            && c.size == a.size && c.align == a.align && c.limit <= a.limit
            && (BusFits(bus, bridge, f, s) && a.size > 0 ==>
                  Aligned(c.base, c.align) && c.limit == c.base + c.size - 1 && c.isAssigned
                  && Get(s, bridge).base <= c.base && c.limit <= Get(s, bridge).limit)
  {
    hide BusResources, Order, AllocBase, AllocBus, Precedes, PlaceAt, Pow2, Distinct;
    var rs := BusResources(bus, f);
    var io, b := IsIo(f), Get(s, bridge);
    var keys, limits := KeysIn(rs, s), LimitsIn(rs, s);
    var ord := Order(keys, None);
    var j := VisitOf(bus, f, s, w);
    AllocBusAt(bus, bridge, f, s, j);
    if BusFits(bus, bridge, f, s) && Get(s, w).size > 0 {
      OneBusPlacement(io, b.base, b.limit, keys, limits, ord, j, j);
    }
  }

  lemma StrandedStays(bus: Bus, bridge: Resource, f: Filter, s: State, w: Resource)
    requires Distinct(BusResources(bus, f)) && w != bridge && Stranded(bus, f, w)
    ensures Get(AllocBus(bus, bridge, f, s), w) == Get(s, w)
  {
    hide BusResources, Order, AllocBase, AllocRun, Precedes, RoundTo, Outcome;
    var rs := BusResources(bus, f);
    var keys := KeysIn(rs, s);
    var ord := Order(keys, None);
    OrderIsStableSort(keys);
    AllocRunClosed(IsIo(f), Get(s, bridge).limit, rs, ord, |ord|, Get(s, bridge).base, s);
    forall j | 0 <= j < |ord| ensures rs[ord[j]] != w {
      assert ord[j] in ord;
    }
  }

  // ----- the two passes fit together

  /** At the start of the sizing pass every bridge window is at 0, as device discovery
      leaves it, and an I/O window has at least 0x400 alignment. */
  ghost predicate WindowsAtZero(bus: Bus, f: Filter, s: State)
    decreases bus
  {
    var ws := Windows(bus, f);
    forall i | 0 <= i < |ws| ::
      && Get(s, ws[i].res).base == 0 && (IsIo(f) ==> Get(s, ws[i].res).align >= 10)
      && WindowsAtZero(ws[i].link, SubFilter(f, ws[i].res), s)
  }

  /** What lies behind every stranded window reaches no further than its limit, measured
      from where the window is. */
  ghost predicate StrandedFit(bus: Bus, f: Filter, s: State)
    decreases bus
  {
    StrandedFitUpTo(bus, f, |Windows(bus, f)|, s)
  }

  ghost predicate StrandedFitUpTo(bus: Bus, f: Filter, k: nat, s: State)
    requires k <= |Windows(bus, f)|
    decreases bus, 0
  {
    var ws := Windows(bus, f);
    forall i | 0 <= i < k ::
      && (Stranded(bus, f, ws[i].res) ==>
            ExtentFits(Get(s, ws[i].res).base, Extent(ws[i].link, SubFilter(f, ws[i].res), s), Get(s, ws[i].res).limit))
      && StrandedFit(ws[i].link, SubFilter(f, ws[i].res), s)
  }

  lemma {:induction false} StrandedFitFrame(bus: Bus, f: Filter, s: State, t: State)
    requires Agree(Footprint(bus, f), s, t)
    ensures StrandedFit(bus, f, s) <==> StrandedFit(bus, f, t)
    decreases bus
  {
    hide Footprint, BusResources, Stranded, Extent;
    var ws := Windows(bus, f);
    forall i | 0 <= i < |ws|
      ensures Get(s, ws[i].res) == Get(t, ws[i].res)
      ensures Extent(ws[i].link, SubFilter(f, ws[i].res), s) == Extent(ws[i].link, SubFilter(f, ws[i].res), t)
      ensures StrandedFit(ws[i].link, SubFilter(f, ws[i].res), s) <==>
                StrandedFit(ws[i].link, SubFilter(f, ws[i].res), t)
    {
      WindowWithin(bus, f, i);
      ExtentFrame(ws[i].link, SubFilter(f, ws[i].res), s, t);
      StrandedFitFrame(ws[i].link, SubFilter(f, ws[i].res), s, t);
    }
  }

  lemma ExtentFrame(bus: Bus, f: Filter, s: State, t: State)
    requires Agree(Footprint(bus, f), s, t)
    ensures Extent(bus, f, s) == Extent(bus, f, t)
  {
    hide Footprint, BusResources, Order, After;
    LevelWithin(bus, f);
    SameKeys(BusResources(bus, f), s, t);
  }

  /** The exact two-pass theorem.  Take a window that is ready and a bus below it whose
      windows have been sized.  No resource at any depth takes the "didn't fit" branch if
      and only if the bus itself fits its window and, behind every window that no bus
      ever places, so do the resources there.  Placed windows need no condition at all. */
  lemma {:induction false} TwoPassExact(bus: Bus, bridge: Resource, f: Filter, s0: State, s: State)
    requires WellFormed(bus, f) && bridge !in Footprint(bus, f)
    requires Ready(bus, bridge, f, s) && TreeSized(bus, f, s0, s) && WindowsAtZero(bus, f, s0)
    ensures AllFit(bus, bridge, f, s) <==>
              ExtentFits(Get(s, bridge).base, Extent(bus, f, s), Get(s, bridge).limit) && StrandedFit(bus, f, s)
    decreases bus, |Windows(bus, f)| + 1
  {
    hide Footprint, WellFormed, BusResources, Ready, TreeSized, WindowsAtZero, Extent, BusFits, AllocBus, WindowsFit,
         StrandedFitUpTo;
    BusFitsExactly(bus, bridge, f, s);
    if BusFits(bus, bridge, f, s) {
      WindowsFitExactly(bus, bridge, f, s0, s, |Windows(bus, f)|);
    }
  }

  lemma {:induction false} WindowsFitExactly(bus: Bus, bridge: Resource, f: Filter, s0: State, s: State, k: nat)
    requires WellFormed(bus, f) && bridge !in Footprint(bus, f) && k <= |Windows(bus, f)|
    requires BusFits(bus, bridge, f, s) && TreeSized(bus, f, s0, s) && WindowsAtZero(bus, f, s0)
    ensures WindowsFit(bus, f, k, AllocBus(bus, bridge, f, s)) <==> StrandedFitUpTo(bus, f, k, s)
    decreases bus, k
  {
    hide Footprint, WellFormed, BusResources, TreeSized, WindowsAtZero, Extent, BusFits, AllocBus, AllFit, Ready,
         WindowSized, StrandedFit, IsWindow, ChildrenWindows, Stranded, AllocWindows;
    if k > 0 {
      var w, sub := Windows(bus, f)[k - 1], SubFilter(f, Windows(bus, f)[k - 1].res);
      var u := AllocWindows(bus, f, k - 1, AllocBus(bus, bridge, f, s));
      WindowsFitExactly(bus, bridge, f, s0, s, k - 1);
      LevelApart(bus, f, k - 1);
      TreeSizedAt(bus, f, s0, s, k - 1);
      BehindUntouched(bus, bridge, f, s, k - 1);
      WindowReady(bus, bridge, f, s0, s, k - 1);
      TreeSizedFrame(w.link, sub, s0, s0, s, u);
      StrandedFitFrame(w.link, sub, s, u);
      TwoPassExact(w.link, w.res, sub, s0, u);
    }
  }

  /** What lies behind window `i` is as it was when its turn comes. */
  lemma BehindUntouched(bus: Bus, bridge: Resource, f: Filter, s: State, i: nat)
    requires WellFormed(bus, f) && bridge !in Footprint(bus, f) && i < |Windows(bus, f)|
    ensures var w := Windows(bus, f)[i];
            var t := AllocBus(bus, bridge, f, s);
            var u := AllocWindows(bus, f, i, t);
            && Agree(Footprint(w.link, SubFilter(f, w.res)), s, u)
            && Get(u, w.res) == Get(t, w.res)
  {
    hide Footprint, WellFormed, BusResources, AllocBus, OnlyChanges, Allocate, IsWindow, ChildrenWindows;
    var w := Windows(bus, f)[i];
    var mine := Footprint(w.link, SubFilter(f, w.res));
    var t := AllocBus(bus, bridge, f, s);
    var u := AllocWindows(bus, f, i, t);
    LevelApart(bus, f, i);
    AllocBusOnlyChanges(bus, bridge, f, s);
    AgreeApart(mine, ToSet(BusResources(bus, f)) + {bridge}, s, t);
    AllocWindowsOnlyChanges(bus, f, i, t);
    BehindApart(bus, f, i, i);
    AgreeApart(mine + {w.res}, Behind(bus, f, i), t, u);
  }

  lemma TreeSizedAt(bus: Bus, f: Filter, s0: State, s: State, i: nat)
    requires TreeSized(bus, f, s0, s) && WindowsAtZero(bus, f, s0) && i < |Windows(bus, f)|
    ensures var w := Windows(bus, f)[i];
            && WindowSized(w.res, w.link, SubFilter(f, w.res), s0, s)
            && TreeSized(w.link, SubFilter(f, w.res), s0, s)
            && WindowsAtZero(w.link, SubFilter(f, w.res), s0)
            && (Stranded(bus, f, w.res) ==> Get(s, w.res).base == 0)
            && Get(s0, w.res).base == 0 && (IsIo(f) ==> Get(s0, w.res).align >= 10)
  {
    hide WindowSized, Stranded;
  }

  /** When its turn comes, every window is ready, and one that its bus has placed is
      large enough. */
  lemma WindowReady(bus: Bus, bridge: Resource, f: Filter, s0: State, s: State, i: nat)
    requires WellFormed(bus, f) && bridge !in Footprint(bus, f) && i < |Windows(bus, f)|
    requires BusFits(bus, bridge, f, s) && TreeSized(bus, f, s0, s) && WindowsAtZero(bus, f, s0)
    ensures var w := Windows(bus, f)[i];
            var sub := SubFilter(f, w.res);
            var u := AllocWindows(bus, f, i, AllocBus(bus, bridge, f, s));
            && Ready(w.link, w.res, sub, u)
            && Extent(w.link, sub, u) == Extent(w.link, sub, s)
            && (Stranded(bus, f, w.res) ==> Get(u, w.res) == Get(s, w.res))
            && (!Stranded(bus, f, w.res) ==>
                ExtentFits(Get(u, w.res).base, Extent(w.link, sub, u), Get(u, w.res).limit))
  {
    hide Footprint, WellFormed, BusResources, TreeSized, WindowsAtZero, Extent, BusFits, AllocBus, AllocWindows,
         Ready, WindowSized, IsWindow, ChildrenWindows, Agree, RoundTo, WindowAligned;
    var w, sub := Windows(bus, f)[i], SubFilter(f, Windows(bus, f)[i].res);
    var u := AllocWindows(bus, f, i, AllocBus(bus, bridge, f, s));
    LevelOf(bus, f);
    LevelApart(bus, f, i);
    TreeSizedAt(bus, f, s0, s, i);
    BehindUntouched(bus, bridge, f, s, i);
    SizedAtZero(w.link, w.res, sub, s0, s);
    if Stranded(bus, f, w.res) {
      StrandedStays(bus, bridge, f, s, w.res);
      ZeroIsAligned(IsIo(sub), Get(s, w.res).align);
    } else {
      WindowPlaced(bus, bridge, f, s, w.res);
      if Get(s, w.res).size > 0 {
        AlignedWindow(IsIo(sub), Get(u, w.res).base, Get(u, w.res).align);
      }
    }
    SizedIsReady(w.link, w.res, sub, s0, s, u);
  }

  /** A window sized from 0 covers the extent behind it, and keeps its alignment floor. */
  lemma SizedAtZero(bus: Bus, bridge: Resource, f: Filter, s0: State, s: State)
    requires WindowSized(bridge, bus, f, s0, s) && Get(s0, bridge).base == 0
    ensures Extent(bus, f, s) <= Get(s, bridge).size && Get(s0, bridge).align <= Get(s, bridge).align
  {
    hide BusResources, Order, After, RoundTo;
    var keys := KeysIn(BusResources(bus, f), s);
    ZeroIsAligned(false, Get(s0, bridge).align);
    ZeroIsAligned(false, Get(s, bridge).align);
    RoundUpFixpoint(0, Get(s0, bridge).align);
    RoundUpFixpoint(0, Get(s, bridge).align);
    RoundUpProperties(Extent(bus, f, s), bridge.gran);
    MaxAlignProperties(Get(s0, bridge).align, keys, Order(keys, None));
  }

  /** The size of a window sized from 0 is the least multiple of its granularity that covers
      the extent behind it; its alignment and limit are the greatest and the least of those
      behind it and its own. */
  lemma WindowSizeLeast(bus: Bus, bridge: Resource, f: Filter, s0: State, s: State)
    requires WindowSized(bridge, bus, f, s0, s) && Get(s0, bridge).base == 0
    ensures Aligned(Get(s, bridge).size, bridge.gran) && Extent(bus, f, s) <= Get(s, bridge).size
    ensures forall v: nat | Aligned(v, bridge.gran) && Extent(bus, f, s) <= v :: Get(s, bridge).size <= v
  {
    hide BusResources, Order, After, RoundTo, Pow2, MaxAlign, MinLimit;
    ZeroIsAligned(false, Get(s0, bridge).align);
    ZeroIsAligned(false, Get(s, bridge).align);
    RoundUpFixpoint(0, Get(s0, bridge).align);
    RoundUpFixpoint(0, Get(s, bridge).align);
    RoundUpProperties(Extent(bus, f, s), bridge.gran);
    forall v: nat | Aligned(v, bridge.gran) && Extent(bus, f, s) <= v ensures Get(s, bridge).size <= v {
      RoundToLeast(Extent(bus, f, s), Pow2(bridge.gran), v);
    }
  }

  lemma WindowAlignAndLimit(bus: Bus, bridge: Resource, f: Filter, s0: State, s: State)
    requires WindowSized(bridge, bus, f, s0, s) && Distinct(BusResources(bus, f))
    ensures var a, b := Get(s0, bridge), Get(s, bridge);
            && a.align <= b.align && b.limit <= a.limit
            && (forall r | r in BusResources(bus, f) && !r.fixed && Get(s, r).size > 0 ::
                  Get(s, r).align <= b.align && b.limit <= Get(s, r).limit)
            && (b.align == a.align || exists r :: r in BusResources(bus, f) && !r.fixed && Get(s, r).size > 0
                                                  && Get(s, r).align == b.align)
            && (b.limit == a.limit || exists r :: r in BusResources(bus, f) && !r.fixed && Get(s, r).size > 0
                                                  && Get(s, r).limit == b.limit)
  {
    hide BusResources, Order, After, RoundTo, MaxAlign, MinLimit, Precedes;
    var rs := BusResources(bus, f);
    var keys, limits := KeysIn(rs, s), LimitsIn(rs, s);
    var ord := Order(keys, None);
    OrderIsStableSort(keys);
    MaxAlignProperties(Get(s0, bridge).align, keys, ord);
    MinLimitProperties(Get(s0, bridge).limit, keys, limits, ord);
    forall j | 0 <= j < |ord| ensures rs[ord[j]] in rs && !rs[ord[j]].fixed {
      assert ord[j] in ord;
    }
    forall r | r in rs && !r.fixed && Get(s, r).size > 0
      ensures Get(s, r).align <= Get(s, bridge).align && Get(s, bridge).limit <= Get(s, r).limit
    {
      var j := VisitOf(bus, f, s, r);
    }
  }

  lemma ZeroIsAligned(io: bool, align: nat)
    ensures WindowAligned(io, 0, align) && 0 % Pow2(align) == 0
  {}

  lemma AlignedWindow(io: bool, base: nat, align: nat)
    requires Aligned(base, align) && (io ==> align >= 10)
    ensures WindowAligned(io, base, align)
  {
    SmallPowers();
    if io { MultipleOfSmaller(base, align, 10); }
  }
}
