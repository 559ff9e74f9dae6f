/** `dev_configure` for one domain: size the domain's windows, move them clear of the
    fixed resources (`avoid_fixed_resources`), then hand out the addresses. */
module DeviceConfigure {
  import opened Wrappers
  import opened PowersOfTwo
  import opened ResourceTree
  import opened BusLayout
  import opened AllocatorState
  import opened SizingPass
  import opened AllocationPass
  import opened TwoPass
  import opened Placement
  import opened Addresses
  import opened FixedResources

  /** The resources of a domain that the passes are run for. */
  predicate Allocatable(r: Resource) {
    !r.fixed && (r.kind == Mem || r.kind == Io)
  }

  /** The filter of a pass started at a domain: any resource of the kind. */
  function DomainFilter(r: Resource): Filter { Filter(r.kind, None) }

  // ----- avoid_fixed_resources

  /** The range narrowed to one resource of the domain itself. */
  ghost function Narrow(lim: Limits, r: Resource, a: Attr): Limits {
    if !Allocatable(r) then lim
    else
      var was := OfKind(lim, r.kind == Io);
      var now := Range(if a.base > was.base then a.base else was.base,
                       if a.limit < was.limit then a.limit else was.limit);
      if r.kind == Io then lim.(io := now) else lim.(mem := now)
  }

  ghost function NarrowAll(rs: seq<Resource>, s: State): Limits {
    if rs == [] then Limits(Range(0, MAX_ADDRESS), Range(0, MAX_ADDRESS))
    else Narrow(NarrowAll(rs[..|rs| - 1], s), rs[|rs| - 1], Get(s, rs[|rs| - 1]))
  }

  ghost function DomainLimits(dev: Device, s: State): Limits {
    ConstrainAll(TreeResources(dev), s, NarrowAll(dev.resources, s))
  }

  /** `resource_max`: the highest aligned base from which the resource ends at its limit. */
  function ResourceMax(a: Attr): nat {
    RoundDown(Word(a.limit - a.size + 1), a.align)
  }

  /** One domain window moved into its limits. */
  ghost function Settle(lim: Limits, r: Resource, a: Attr): Attr {
    if !Allocatable(r) then a
    else
      var range := OfKind(lim, r.kind == Io);
      var b := a.(base := if range.base > a.base then range.base else a.base,
                  limit := if a.limit > range.limit then range.limit else a.limit);
      if r.kind == Mem then b.(base := ResourceMax(b)) else b
  }

  ghost function SettleAll(rs: seq<Resource>, k: nat, lim: Limits, s: State): State
    requires k <= |rs|
  {
    if k == 0 then s
    else
      var t := SettleAll(rs, k - 1, lim, s);
      t[rs[k - 1] := Settle(lim, rs[k - 1], Get(t, rs[k - 1]))]
  }

  method AvoidFixedResources(dev: Device, ghost dom: set<Resource>, ghost s: State)
    requires ToSet(TreeResources(dev)) <= dom && Holds(dom, s) && Distinct(dev.resources)
    modifies dom
    ensures Holds(dom, SettleAll(dev.resources, |dev.resources|, DomainLimits(dev, s), s))
  {
    hide Holds, LinkResources, Narrow, ConstrainAll, Settle;
    var limits := new Constraints(Range(0, MAX_ADDRESS), Range(0, MAX_ADDRESS));
    SplitSet(dev.resources, LinkResources(dev, 0));
    // First the windows of the domain themselves.
    for j := 0 to |dev.resources|
      invariant Holds(dom, s) && limits.Value() == NarrowAll(dev.resources[..j], s)
      invariant fresh(limits)
    {
      assert dev.resources[..j + 1][..j] == dev.resources[..j];
      assert dev.resources[j] in ToSet(dev.resources);
      NarrowTo(limits, dev.resources[j], dom, s);
    }
    assert dev.resources[..|dev.resources|] == dev.resources;
    // Then everything fixed in the tree.
    ConstrainResources(dev, limits, dom, s);
    // Now move the windows.
    for j := 0 to |dev.resources|
      invariant limits.Value() == DomainLimits(dev, s)
      invariant Holds(dom, SettleAll(dev.resources, j, DomainLimits(dev, s), s))
    {
      assert dev.resources[j] in ToSet(dev.resources);
      SettleResource(limits, dev.resources[j], dom, SettleAll(dev.resources, j, DomainLimits(dev, s), s));
    }
  }

  method NarrowTo(limits: Constraints, res: Resource, ghost dom: set<Resource>, ghost s: State)
    requires res in dom && Holds(dom, s)
    modifies limits
    ensures Holds(dom, s) && limits.Value() == Narrow(old(limits.Value()), res, Get(s, res))
  {
    if res.fixed || (res.kind != Mem && res.kind != Io) {
      return;
    }
    var lim := if res.kind == Mem then limits.mem else limits.io;
    if res.base > lim.base {
      lim := lim.(base := res.base);
    }
    if res.limit < lim.limit {
      lim := lim.(limit := res.limit);
    }
    if res.kind == Mem {
      limits.mem := lim;
    } else {
      limits.io := lim;
    }
  }

  method SettleResource(limits: Constraints, res: Resource, ghost dom: set<Resource>, ghost s: State)
    requires res in dom && Holds(dom, s)
    modifies dom
    ensures limits.Value() == old(limits.Value())
    ensures Holds(dom, s[res := Settle(limits.Value(), res, Get(s, res))])
  {
    hide RoundDown;
    if res.fixed || (res.kind != Mem && res.kind != Io) {
      return;
    }
    var lim := if res.kind == Mem then limits.mem else limits.io;
    if lim.base > res.base {
      res.base := lim.base;
    }
    if res.limit > lim.limit {
      res.limit := lim.limit;
    }
    // A memory window goes to the top of its limits.
    if res.kind == Mem {
      res.base := RoundDown(Word(res.limit - res.size + 1), res.align);
    }
  }

  // ----- dev_configure

  ghost function DomainCompute(dev: Device, k: nat, s: State): State
    requires k <= |dev.resources| && dev.links != []
  {
    if k == 0 then s
    else
      var t, r := DomainCompute(dev, k - 1, s), dev.resources[k - 1];
      if Allocatable(r) then Compute(dev.links[0], r, DomainFilter(r), t) else t
  }

  ghost function DomainAllocate(dev: Device, k: nat, s: State): State
    requires k <= |dev.resources| && dev.links != []
  {
    if k == 0 then s
    else
      var t, r := DomainAllocate(dev, k - 1, s), dev.resources[k - 1];
      if Allocatable(r) then Allocate(dev.links[0], r, DomainFilter(r), t) else t
  }

  ghost function Settled(dev: Device, s: State): State {
    SettleAll(dev.resources, |dev.resources|, DomainLimits(dev, s), s)
  }

  ghost function Configure(dev: Device, s: State): State
    requires dev.links != []
  {
    var n := |dev.resources|;
    DomainAllocate(dev, n, Settled(dev, DomainCompute(dev, n, s)))
  }

  ghost predicate DomainWellFormed(dev: Device) {
    && dev.links != [] && Distinct(dev.resources)
    && forall r | r in dev.resources && Allocatable(r) ::
         && WellFormed(dev.links[0], DomainFilter(r))
         && Footprint(dev.links[0], DomainFilter(r)) !! ToSet(dev.resources)
  }

  method ConfigureDomain(dev: Device, ghost dom: set<Resource>, ghost s: State)
    requires DomainWellFormed(dev)
    requires ToSet(TreeResources(dev)) <= dom && Holds(dom, s)
    requires forall r | r in dev.resources && Allocatable(r) :: Footprint(dev.links[0], DomainFilter(r)) <= dom
    modifies dom
    ensures Holds(dom, Configure(dev, s))
  {
    hide Holds, Compute, Allocate, WellFormed, Footprint, SettleAll, DomainLimits, TreeResources;
    InTree(dev);
    var n := |dev.resources|;
    for j := 0 to n
      invariant Holds(dom, DomainCompute(dev, j, s))
    {
      var res := dev.resources[j];
      if Allocatable(res) {
        assert res in dev.resources && res in ToSet(dev.resources);
        ComputeResources(dev.links[0], res, DomainFilter(res), dom, DomainCompute(dev, j, s));
      }
    }
    AvoidFixedResources(dev, dom, DomainCompute(dev, n, s));
    ghost var settled := Settled(dev, DomainCompute(dev, n, s));
    for j := 0 to n
      invariant Holds(dom, DomainAllocate(dev, j, settled))
    {
      var res := dev.resources[j];
      if Allocatable(res) {
        assert res in dev.resources && res in ToSet(dev.resources);
        var fit := AllocateResources(dev.links[0], res, DomainFilter(res), dom, DomainAllocate(dev, j, settled));
      }
    }
  }

  lemma InTree(dev: Device)
    ensures ToSet(dev.resources) <= ToSet(TreeResources(dev))
  {
    SplitSet(dev.resources, LinkResources(dev, 0));
  }

  // ----- one window of the domain among the others

  /** Resource `i` is the one window of its kind in the domain. */
  predicate Sole(dev: Device, i: nat) {
    && i < |dev.resources| && Allocatable(dev.resources[i])
    && forall j | 0 <= j < |dev.resources| && j != i && Allocatable(dev.resources[j]) ::
         dev.resources[j].kind != dev.resources[i].kind
  }

  predicate SoleMemory(dev: Device, i: nat) { Sole(dev, i) && dev.resources[i].kind == Mem }

  predicate SolePorts(dev: Device, i: nat) { Sole(dev, i) && dev.resources[i].kind == Io }

  lemma {:induction false} ChildrenKind(bus: Bus, i: nat, f: Filter)
    requires i <= |bus.children|
    ensures forall r | r in ChildrenResources(bus, i, f) :: r.kind == f.kind
    decreases bus, |bus.children| - i
  {
    if i < |bus.children| {
      DeviceKind(bus.children[i], 0, f);
      ChildrenKind(bus, i + 1, f);
    }
  }

  lemma {:induction false} DeviceKind(dev: Device, j: nat, f: Filter)
    requires j <= |dev.resources|
    ensures forall r | r in DeviceResources(dev, j, f) :: r.kind == f.kind
    decreases dev, |dev.resources| - j
  {
    if j < |dev.resources| {
      DeviceKind(dev, j + 1, f);
      match FindLink(dev.links, SubtractiveLinkOfIndex(dev.resources[j].index))
      case None =>
      case Some(k) => ChildrenKind(dev.links[k], 0, f);
    }
  }

  /** A pass started for one kind of resource touches only that kind. */
  lemma {:induction false} FootprintKind(bus: Bus, f: Filter)
    ensures forall r | r in Footprint(bus, f) :: r.kind == f.kind
    decreases bus
  {
    hide ChildrenResources, ChildrenWindows;
    ChildrenKind(bus, 0, f);
    var ws := Windows(bus, f);
    forall i | 0 <= i < |ws|
      ensures forall r | r in Footprint(ws[i].link, SubFilter(f, ws[i].res)) :: r.kind == f.kind
    {
      FootprintKind(ws[i].link, SubFilter(f, ws[i].res));
    }
  }

  /** The window and all behind it. */
  ghost function Mine(dev: Device, i: nat): set<Resource>
    requires dev.links != [] && i < |dev.resources|
  {
    Footprint(dev.links[0], DomainFilter(dev.resources[i])) + {dev.resources[i]}
  }

  lemma OthersApart(dev: Device, i: nat, j: nat)
    requires dev.links != [] && i < |dev.resources| && DomainWellFormed(dev) && Sole(dev, i)
    requires j < |dev.resources| && j != i && Allocatable(dev.resources[j])
    ensures Mine(dev, i) !! Mine(dev, j)
  {
    hide Footprint, WellFormed;
    var v, w := dev.resources[i], dev.resources[j];
    assert v in dev.resources && w in dev.resources;
    FootprintKind(dev.links[0], DomainFilter(v));
    FootprintKind(dev.links[0], DomainFilter(w));
  }

  lemma SoleWellFormed(dev: Device, i: nat)
    requires dev.links != [] && i < |dev.resources| && DomainWellFormed(dev) && Sole(dev, i)
    ensures WellFormed(dev.links[0], DomainFilter(dev.resources[i]))
    ensures Footprint(dev.links[0], DomainFilter(dev.resources[i])) !! ToSet(dev.resources)
    ensures dev.resources[i] !in Footprint(dev.links[0], DomainFilter(dev.resources[i]))
  {
    hide Footprint, WellFormed;
    assert dev.resources[i] in dev.resources && dev.resources[i] in ToSet(dev.resources);
  }

  /** Sizing the other windows of the domain leaves this one alone. */
  lemma {:induction false} OthersComputed(dev: Device, i: nat, from: nat, k: nat, s: State)
    requires dev.links != [] && i < |dev.resources| && DomainWellFormed(dev) && Sole(dev, i)
    requires from <= k <= |dev.resources| && !(from <= i < k)
    ensures Agree(Mine(dev, i), DomainCompute(dev, from, s), DomainCompute(dev, k, s))
    decreases k - from
  {
    hide Mine, DomainWellFormed, Sole, Compute, OnlyChanges;
    if from < k {
      OthersComputed(dev, i, from, k - 1, s);
      var t, r := DomainCompute(dev, k - 1, s), dev.resources[k - 1];
      if Allocatable(r) {
        OthersApart(dev, i, k - 1);
        ComputeOnlyChanges(dev.links[0], r, DomainFilter(r), t);
        MineIs(dev, k - 1);
        AgreeApart(Mine(dev, i), Mine(dev, k - 1), t, DomainCompute(dev, k, s));
      }
    }
  }

  lemma MineIs(dev: Device, j: nat)
    requires dev.links != [] && j < |dev.resources|
    ensures Mine(dev, j) == Footprint(dev.links[0], DomainFilter(dev.resources[j])) + {dev.resources[j]}
  {}

  lemma {:induction false} OthersAllocated(dev: Device, i: nat, from: nat, k: nat, s: State)
    requires dev.links != [] && i < |dev.resources| && DomainWellFormed(dev) && Sole(dev, i)
    requires from <= k <= |dev.resources| && !(from <= i < k)
    ensures Agree(Mine(dev, i), DomainAllocate(dev, from, s), DomainAllocate(dev, k, s))
    decreases k - from
  {
    hide Mine, DomainWellFormed, Sole, Allocate, OnlyChanges;
    if from < k {
      OthersAllocated(dev, i, from, k - 1, s);
      var t, r := DomainAllocate(dev, k - 1, s), dev.resources[k - 1];
      if Allocatable(r) {
        OthersApart(dev, i, k - 1);
        AllocateOnlyChanges(dev.links[0], r, DomainFilter(r), t);
        MineIs(dev, k - 1);
        AgreeApart(Mine(dev, i), Mine(dev, k - 1), t, DomainAllocate(dev, k, s));
      }
    }
  }

  /** After all windows of the domain have been sized, each of them is. */
  lemma SoleSized(dev: Device, i: nat, s: State)
    requires dev.links != [] && i < |dev.resources| && DomainWellFormed(dev) && Sole(dev, i)
    ensures var bus, w := dev.links[0], dev.resources[i];
            var u := DomainCompute(dev, |dev.resources|, s);
            WindowSized(w, bus, DomainFilter(w), s, u) && TreeSized(bus, DomainFilter(w), s, u)
  {
    hide Footprint, DomainWellFormed, Sole, Compute, WindowSized, TreeSized, WellFormed, Mine;
    var bus, w, f, n := dev.links[0], dev.resources[i], DomainFilter(dev.resources[i]), |dev.resources|;
    var t, u, v := DomainCompute(dev, i, s), DomainCompute(dev, i + 1, s), DomainCompute(dev, n, s);
    SoleWellFormed(dev, i);
    SoleIsAllocatable(dev, i);
    MineIs(dev, i);
    ComputeSizes(bus, w, f, t);
    OthersComputed(dev, i, 0, i, s);
    OthersComputed(dev, i, i + 1, n, s);
    WindowSizedFrameStart(w, bus, f, t, s, u);
    WindowSizedFrame(w, bus, f, s, s, u, v);
    AgreeSym(Footprint(bus, f), s, t);
    TreeSizedFrame(bus, f, t, s, u, v);
  }

  lemma SoleIsAllocatable(dev: Device, i: nat)
    requires Sole(dev, i)
    ensures Allocatable(dev.resources[i])
  {}

  lemma {:induction false} SettledIs(dev: Device, k: nat, lim: Limits, s: State, r: Resource)
    requires k <= |dev.resources| && Distinct(dev.resources)
    ensures r !in dev.resources[..k] ==> Get(SettleAll(dev.resources, k, lim, s), r) == Get(s, r)
    ensures r in dev.resources[..k] ==> Get(SettleAll(dev.resources, k, lim, s), r) == Settle(lim, r, Get(s, r))
  {
    hide Settle;
    if k > 0 {
      SettledIs(dev, k - 1, lim, s, r);
      assert dev.resources[..k] == dev.resources[..k - 1] + [dev.resources[k - 1]];
    }
  }

  /** The domain window, as moved by `avoid_fixed_resources`, starts within the limits and
      ends by its own limit. */
  predicate InLimits(range: Range, a: Attr) {
    range.base <= a.base && a.base + a.size <= a.limit + 1
  }

  /** `resource_max` leaves room for the resource whenever there is any. */
  lemma ResourceMaxFits(a: Attr)
    requires a.limit < TWO_64 && a.size <= a.limit + 1 && 0 < a.size
    ensures Aligned(ResourceMax(a), a.align) && ResourceMax(a) + a.size - 1 <= a.limit
  {
    WordIs(a.limit - a.size + 1);
    hide Word, RoundDown, Pow2;
    RoundDownProperties(a.limit - a.size + 1, a.align);
  }

  ghost function AfterSizing(dev: Device, s: State): State
    requires dev.links != []
  {
    DomainCompute(dev, |dev.resources|, s)
  }

  /** The state in which the allocation pass starts on window `i`. */
  ghost function BeforeAllocating(dev: Device, i: nat, s: State): State
    requires dev.links != [] && i < |dev.resources|
  {
    DomainAllocate(dev, i, Settled(dev, AfterSizing(dev, s)))
  }

  /** The domain window is as `avoid_fixed_resources` left it, and all behind it is as
      the sizing pass left it. */
  lemma SoleBeforeAllocating(dev: Device, i: nat, s: State)
    requires dev.links != [] && i < |dev.resources| && DomainWellFormed(dev) && Sole(dev, i)
    ensures var w := dev.resources[i];
            var u, v := AfterSizing(dev, s), BeforeAllocating(dev, i, s);
            && Agree(Footprint(dev.links[0], DomainFilter(w)), u, v)
            && Get(v, w) == Settle(DomainLimits(dev, u), w, Get(u, w))
  {
    hide Footprint, DomainWellFormed, Sole, Settle, WellFormed, DomainLimits, Mine, SettleAll, DomainCompute;
    var w := dev.resources[i];
    var u := AfterSizing(dev, s);
    var t := Settled(dev, u);
    var n := |dev.resources|;
    SoleWellFormed(dev, i);
    MineIs(dev, i);
    OthersAllocated(dev, i, 0, i, t);
    DomainDistinct(dev);
    assert dev.resources[..n] == dev.resources;
    SettledIs(dev, n, DomainLimits(dev, u), u, w);
    forall r | r in Footprint(dev.links[0], DomainFilter(w)) ensures Get(u, r) == Get(t, r) {
      assert r !in ToSet(dev.resources);
      SettledIs(dev, n, DomainLimits(dev, u), u, r);
    }
  }

  lemma DomainDistinct(dev: Device)
    requires DomainWellFormed(dev)
    ensures Distinct(dev.resources)
  {
    hide WellFormed, Footprint;
  }

  /** What the allocation pass starts from on the memory window of the domain. */
  lemma MemoryReady(dev: Device, i: nat, s: State)
    requires dev.links != [] && i < |dev.resources| && DomainWellFormed(dev) && SoleMemory(dev, i)
    requires var w, f := dev.resources[i], DomainFilter(dev.resources[i]);
             Get(s, w).base == 0 && WindowsAtZero(dev.links[0], f, s)
    requires InLimits(DomainLimits(dev, AfterSizing(dev, s)).mem, Get(BeforeAllocating(dev, i, s), dev.resources[i]))
    ensures var bus, w, f := dev.links[0], dev.resources[i], DomainFilter(dev.resources[i]);
            var v := BeforeAllocating(dev, i, s);
            && WellFormed(bus, f) && w !in Footprint(bus, f) && Agree(Footprint(bus, f), AfterSizing(dev, s), v)
            && Ready(bus, w, f, v) && TreeSized(bus, f, s, v)
               && ExtentFits(Get(v, w).base, Extent(bus, f, v), Get(v, w).limit)
  {
    hide Footprint, DomainWellFormed, WellFormed, DomainLimits, WindowsAtZero, WindowSized, TreeSized, Ready, Extent,
         Compute, SettleAll, RoundDown, Mine, DomainCompute, BeforeAllocating, AfterSizing;
    var bus, w, f := dev.links[0], dev.resources[i], DomainFilter(dev.resources[i]);
    var u, v := AfterSizing(dev, s), BeforeAllocating(dev, i, s);
    SoleWellFormed(dev, i);
    AfterSizingIs(dev, s);
    SoleSized(dev, i, s);
    SoleBeforeAllocating(dev, i, s);
    SettledAligned(DomainLimits(dev, u), w, Get(u, w));
    SizedIsReady(bus, w, f, s, u, v);
    SizedAtZero(bus, w, f, s, u);
    TreeSizedFrame(bus, f, s, s, u, v);
  }

  /** What the rest of the domain leaves behind the window. */
  lemma SoleFinal(dev: Device, i: nat, s: State)
    requires dev.links != [] && i < |dev.resources| && DomainWellFormed(dev) && Sole(dev, i)
    ensures var w, f := dev.resources[i], DomainFilter(dev.resources[i]);
            Agree(Footprint(dev.links[0], f), Allocate(dev.links[0], w, f, BeforeAllocating(dev, i, s)),
                  Configure(dev, s))
  {
    hide Footprint, DomainWellFormed, Settled, Allocate, BeforeAllocating, Configure, DomainAllocate, AfterSizing;
    SoleIsAllocatable(dev, i);
    MineIs(dev, i);
    ConfigureIs(dev, i, s);
    OthersAllocated(dev, i, i + 1, |dev.resources|, Settled(dev, AfterSizing(dev, s)));
  }

  /** For every device tree: if the settled memory window of the domain is within its
      limits, then every memory resource that placed windows lead to ends up aligned,
      inside every window above it, and apart from its siblings.  No memory resource at
      any depth takes the "didn't fit" branch exactly when all that lies behind stranded
      windows fits there, and then the same holds behind those. */
  lemma MemoryConfigured(dev: Device, i: nat, s: State)
    requires dev.links != [] && i < |dev.resources| && DomainWellFormed(dev) && SoleMemory(dev, i)
    requires var w, f := dev.resources[i], DomainFilter(dev.resources[i]);
             Get(s, w).base == 0 && WindowsAtZero(dev.links[0], f, s)
    requires InLimits(DomainLimits(dev, AfterSizing(dev, s)).mem, Get(BeforeAllocating(dev, i, s), dev.resources[i]))
    ensures var bus, w, f := dev.links[0], dev.resources[i], DomainFilter(dev.resources[i]);
            var before := BeforeAllocating(dev, i, s);
            && PlacedContained(bus, f, Get(before, w).base, Get(before, w).limit, Configure(dev, s))
            && (AllFit(bus, w, f, before) <==> StrandedFit(bus, f, AfterSizing(dev, s)))
            && (AllFit(bus, w, f, before) ==>
                  Contained(bus, f, Get(before, w).base, Get(before, w).limit, Configure(dev, s)))
  {
    hide Footprint, DomainWellFormed, WellFormed, DomainLimits, WindowsAtZero, TreeSized, StrandedFit, Ready, AllFit,
         Contained, PlacedContained, Extent, Allocate, BeforeAllocating, AfterSizing, Configure;
    var bus, w, f := dev.links[0], dev.resources[i], DomainFilter(dev.resources[i]);
    var u, v := AfterSizing(dev, s), BeforeAllocating(dev, i, s);
    MemoryReady(dev, i, s);
    SoleFinal(dev, i, s);
    FitsPlaced(bus, w, f, s, v);
    PlacedContainedFrame(bus, f, Get(v, w).base, Get(v, w).limit, Allocate(bus, w, f, v), Configure(dev, s));
    TwoPassExact(bus, w, f, s, v);
    StrandedFitFrame(bus, f, u, v);
    if AllFit(bus, w, f, v) {
      AllFitContained(bus, w, f, v);
      ContainedFrame(bus, f, Get(v, w).base, Get(v, w).limit, Allocate(bus, w, f, v), Configure(dev, s));
    }
  }

  lemma AfterSizingIs(dev: Device, s: State)
    requires dev.links != []
    ensures AfterSizing(dev, s) == DomainCompute(dev, |dev.resources|, s)
  {}

  lemma ConfigureIs(dev: Device, i: nat, s: State)
    requires dev.links != [] && i < |dev.resources| && Allocatable(dev.resources[i])
    ensures var w, f := dev.resources[i], DomainFilter(dev.resources[i]);
            var t := Settled(dev, AfterSizing(dev, s));
            && DomainAllocate(dev, i + 1, t) == Allocate(dev.links[0], w, f, BeforeAllocating(dev, i, s))
            && Configure(dev, s) == DomainAllocate(dev, |dev.resources|, t)
  {
    hide Allocate, Settled, DomainCompute;
  }

  lemma SettledAligned(lim: Limits, w: Resource, a: Attr)
    requires Allocatable(w) && w.kind == Mem
    ensures var b := Settle(lim, w, a);
            b.size == a.size && b.align == a.align && b.limit <= a.limit && WindowAligned(false, b.base, b.align)
  {
    var limit := if a.limit > lim.mem.limit then lim.mem.limit else a.limit;
    RoundDownProperties(Word(limit - a.size + 1), a.align);
  }

  // ----- and clear of every fixed resource

  /** Address `x` belongs to fixed memory of the domain. */
  ghost predicate FixedMemory(dev: Device, s: State, x: int) {
    exists r ::
      r in TreeResources(dev) && r.fixed && r.kind == Mem && Get(s, r).base <= x < Get(s, r).base + Get(s, r).size
  }

  /** The point of the whole allocator: no address handed out to a memory resource that
      placed windows lead to belongs to any fixed memory resource of the domain. */
  lemma MemoryAvoidsFixed(dev: Device, i: nat, s: State, x: int)
    requires dev.links != [] && i < |dev.resources| && DomainWellFormed(dev) && SoleMemory(dev, i)
    requires var w, f := dev.resources[i], DomainFilter(dev.resources[i]);
             Get(s, w).base == 0 && WindowsAtZero(dev.links[0], f, s)
    requires InLimits(DomainLimits(dev, AfterSizing(dev, s)).mem, Get(BeforeAllocating(dev, i, s), dev.resources[i]))
    requires var u := AfterSizing(dev, s);
             NarrowAll(dev.resources, u).mem.InWord()
               && NeverWraps(TreeResources(dev), u, NarrowAll(dev.resources, u), false)
    requires Uses(dev.links[0], DomainFilter(dev.resources[i]), Configure(dev, s), x)
    ensures !FixedMemory(dev, AfterSizing(dev, s), x)
  {
    hide Footprint, DomainWellFormed, WindowsAtZero, StrandedFit, AllFit, Contained, PlacedContained, TreeResources,
         NeverWraps, Uses, ConstrainAll, NarrowAll, BeforeAllocating, AfterSizing, Configure, ResourceMax;
    var bus, w, f := dev.links[0], dev.resources[i], DomainFilter(dev.resources[i]);
    var u, v := AfterSizing(dev, s), BeforeAllocating(dev, i, s);
    MemoryConfigured(dev, i, s);
    UsesWithin(bus, f, Get(v, w).base, Get(v, w).limit, Configure(dev, s), x);
    SoleBeforeAllocating(dev, i, s);
    AllAvoided(TreeResources(dev), u, NarrowAll(dev.resources, u), false);
    assert DomainLimits(dev, u).mem.Has(x);
  }

  /** Behind a stranded window nothing keeps addresses away from fixed memory: the window
      stays at 0 and the resources behind it at their offsets.  So every memory resource is
      given an address free of fixed memory if and only if, laid out there, the resources
      behind stranded windows fit and cover no fixed memory. */
  lemma MemoryClearExactly(dev: Device, i: nat, s: State)
    requires dev.links != [] && i < |dev.resources| && DomainWellFormed(dev) && SoleMemory(dev, i)
    requires var w, f := dev.resources[i], DomainFilter(dev.resources[i]);
             Get(s, w).base == 0 && WindowsAtZero(dev.links[0], f, s)
    requires InLimits(DomainLimits(dev, AfterSizing(dev, s)).mem, Get(BeforeAllocating(dev, i, s), dev.resources[i]))
    requires var u := AfterSizing(dev, s);
             NarrowAll(dev.resources, u).mem.InWord()
               && NeverWraps(TreeResources(dev), u, NarrowAll(dev.resources, u), false)
    ensures var bus, w, f := dev.links[0], dev.resources[i], DomainFilter(dev.resources[i]);
            var u, t := AfterSizing(dev, s), Configure(dev, s);
            (AllFit(bus, w, f, BeforeAllocating(dev, i, s))
             && forall x: int | Uses(bus, f, t, x) || StrandedUses(bus, f, t, x) :: !FixedMemory(dev, u, x))
            <==>
            (StrandedFit(bus, f, u) && forall x: int | StrandedOver(bus, f, u, x) :: !FixedMemory(dev, u, x))
  {
    hide Footprint, DomainWellFormed, WindowsAtZero, StrandedFit, AllFit, Contained, PlacedContained, TreeResources,
         NeverWraps, Uses, StrandedUses, StrandedOver, NarrowAll, BeforeAllocating, AfterSizing, Configure,
         FixedMemory, DomainLimits, InLimits, SoleMemory;
    var bus, w, f := dev.links[0], dev.resources[i], DomainFilter(dev.resources[i]);
    var u, t := AfterSizing(dev, s), Configure(dev, s);
    MemoryConfigured(dev, i, s);
    forall x: int | Uses(bus, f, t, x) ensures !FixedMemory(dev, u, x) {
      MemoryAvoidsFixed(dev, i, s, x);
    }
    if StrandedFit(bus, f, u) {
      forall x: int ensures StrandedUses(bus, f, t, x) <==> StrandedOver(bus, f, u, x) {
        StrandedMemory(dev, i, s, x);
      }
    }
  }

  /** The addresses handed out behind stranded windows. */
  lemma StrandedMemory(dev: Device, i: nat, s: State, x: int)
    requires dev.links != [] && i < |dev.resources| && DomainWellFormed(dev) && SoleMemory(dev, i)
    requires var w, f := dev.resources[i], DomainFilter(dev.resources[i]);
             Get(s, w).base == 0 && WindowsAtZero(dev.links[0], f, s)
               && StrandedFit(dev.links[0], f, AfterSizing(dev, s))
    requires InLimits(DomainLimits(dev, AfterSizing(dev, s)).mem, Get(BeforeAllocating(dev, i, s), dev.resources[i]))
    ensures var f := DomainFilter(dev.resources[i]);
            StrandedUses(dev.links[0], f, Configure(dev, s), x) <==>
              StrandedOver(dev.links[0], f, AfterSizing(dev, s), x)
  {
    hide Footprint, DomainWellFormed, WellFormed, WindowsAtZero, TreeSized, StrandedFit, Ready, Extent, Allocate,
         StrandedUses, StrandedOver, BeforeAllocating, AfterSizing, Configure, DomainLimits, InLimits, Sole, Agree;
    var bus, w, f := dev.links[0], dev.resources[i], DomainFilter(dev.resources[i]);
    var u, v := AfterSizing(dev, s), BeforeAllocating(dev, i, s);
    MemoryReady(dev, i, s);
    SoleFinal(dev, i, s);
    StrandedFitFrame(bus, f, u, v);
    StrandedExact(bus, w, f, s, v, x);
    StrandedUsesFrame(bus, f, Allocate(bus, w, f, v), Configure(dev, s), x);
    StrandedOverFrame(bus, f, u, v, x);
  }
}
