/** The I/O window of a domain, and what `avoid_fixed_resources` makes of any window. */
module DomainPorts {
  import opened PowersOfTwo
  import opened ResourceTree
  import opened BusLayout
  import opened AllocatorState
  import opened SizingPass
  import opened AllocationPass
  import opened TwoPass
  import opened Placement
  import opened Addresses
  import opened FixedResources
  import opened DeviceConfigure

  // ----- where the windows of a domain are moved

  /** The walk for fixed resources meets exactly those of the device and of the enabled
      devices on its buses, and so on down. */
  lemma TreeTaken(dev: Device, r: Resource)
    ensures r in TreeResources(dev) <==>
              || r in dev.resources
              || exists i, j :: 0 <= i < |dev.links| && 0 <= j < |dev.links[i].children|
                                && dev.links[i].children[j].enabled && r in TreeResources(dev.links[i].children[j])
  {
    LinksTaken(dev, 0, r);
  }

  lemma {:induction false} LinksTaken(dev: Device, i: nat, r: Resource)
    requires i <= |dev.links|
    ensures r in LinkResources(dev, i) <==>
              exists k, j :: i <= k < |dev.links| && 0 <= j < |dev.links[k].children|
                             && dev.links[k].children[j].enabled && r in TreeResources(dev.links[k].children[j])
    decreases |dev.links| - i
  {
    hide TreeResources, EnabledResources;
    if i < |dev.links| {
      ChildrenTaken(dev.links[i], 0, r);
      LinksTaken(dev, i + 1, r);
    }
  }

  lemma {:induction false} ChildrenTaken(bus: Bus, j: nat, r: Resource)
    requires j <= |bus.children|
    ensures r in EnabledResources(bus, j) <==>
              exists k :: j <= k < |bus.children| && bus.children[k].enabled && r in TreeResources(bus.children[k])
    decreases |bus.children| - j
  {
    hide TreeResources;
    if j < |bus.children| { ChildrenTaken(bus, j + 1, r); }
  }

  /** The initial limits are what the windows of the kind have in common. */
  lemma {:induction false} NarrowExact(rs: seq<Resource>, s: State, io: bool, x: nat)
    ensures OfKind(NarrowAll(rs, s), io).Has(x) <==>
              && x <= MAX_ADDRESS
              && forall r | r in rs && !r.fixed && r.kind == (if io then Io else Mem) ::
                   Get(s, r).base <= x <= Get(s, r).limit
    decreases |rs|
  {
    if rs != [] {
      var n := |rs| - 1;
      NarrowExact(rs[..n], s, io, x);
      NarrowOne(NarrowAll(rs[..n], s), rs[n], Get(s, rs[n]), io, x);
      hide NarrowAll, Narrow, OfKind;
      assert rs == rs[..n] + [rs[n]];
      assert NarrowAll(rs, s) == Narrow(NarrowAll(rs[..n], s), rs[n], Get(s, rs[n])) by { hide *; NarrowLast(rs, s); }
    }
  }

  lemma NarrowLast(rs: seq<Resource>, s: State)
    requires rs != []
    ensures NarrowAll(rs, s) == Narrow(NarrowAll(rs[..|rs| - 1], s), rs[|rs| - 1], Get(s, rs[|rs| - 1]))
  {}

  lemma NarrowOne(lim: Limits, r: Resource, a: Attr, io: bool, x: nat)
    ensures OfKind(Narrow(lim, r, a), io).Has(x) <==>
              && OfKind(lim, io).Has(x)
              && (!r.fixed && r.kind == (if io then Io else Mem) ==> a.base <= x <= a.limit)
  {}

  /** `resource_max` is the highest aligned base that leaves room. */
  lemma ResourceMaxHighest(a: Attr, base: nat)
    requires a.limit < TWO_64 && 0 < a.size <= a.limit + 1
    ensures Aligned(base, a.align) && base + a.size - 1 <= a.limit ==> base <= ResourceMax(a)
  {
    var top := a.limit - a.size + 1;
    WordIs(top);
    hide Word, RoundDown;
    RoundDownProperties(top, a.align);
    if Aligned(base, a.align) && ResourceMax(a) < base <= top {
      NextMultiple(ResourceMax(a), base, Pow2(a.align));
    }
  }

  /** After `avoid_fixed_resources` a window ends by its own limit and by that of its kind;
      an I/O window starts at its own base or that of the limits, whichever is greater, and
      a memory window as high as its limit and alignment allow. */
  lemma SettledWindow(dev: Device, u: State, r: Resource)
    requires Distinct(dev.resources) && r in dev.resources && Allocatable(r)
    ensures var range := OfKind(DomainLimits(dev, u), r.kind == Io);
            var a, b := Get(u, r), Get(Settled(dev, u), r);
            && b.size == a.size && b.align == a.align
            && b.limit == (if a.limit <= range.limit then a.limit else range.limit)
            && (r.kind == Io ==> b.base == if a.base >= range.base then a.base else range.base)
            && (r.kind == Mem ==> b.base == ResourceMax(b))
  {
    hide DomainLimits, ResourceMax, SettleAll;
    var n := |dev.resources|;
    assert dev.resources[..n] == dev.resources;
    SettledIs(dev, n, DomainLimits(dev, u), u, r);
    SizeAndLimit(Settle(DomainLimits(dev, u), r, Get(u, r)));
  }

  /** `ResourceMax` looks at size, limit and alignment alone. */
  lemma SizeAndLimit(b: Attr)
    ensures forall base: nat :: ResourceMax(b.(base := base)) == ResourceMax(b)
  {}

  // ----- the I/O window

  /** Port `x` belongs to fixed I/O of the domain. */
  ghost predicate FixedPort(dev: Device, s: State, x: int) {
    exists r ::
      r in TreeResources(dev) && r.fixed && r.kind == Io && Get(s, r).base <= x < Get(s, r).base + Get(s, r).size
  }

  /** No port handed out to a resource that placed windows lead to belongs to fixed I/O of
      the domain, wherever the window starts, as long as everything has been placed. */
  lemma PortsAvoidFixed(dev: Device, i: nat, s: State, x: int)
    requires dev.links != [] && i < |dev.resources| && DomainWellFormed(dev) && SolePorts(dev, i)
    requires AllFit(dev.links[0], dev.resources[i], DomainFilter(dev.resources[i]), BeforeAllocating(dev, i, s))
    requires var u := AfterSizing(dev, s);
             && NarrowAll(dev.resources, u).io.InWord()
             && NeverWraps(TreeResources(dev), u, NarrowAll(dev.resources, u), true)
    requires Uses(dev.links[0], DomainFilter(dev.resources[i]), Configure(dev, s), x)
    ensures !FixedPort(dev, AfterSizing(dev, s), x)
  {
    hide Footprint, DomainWellFormed, WellFormed, AllFit, Contained, PlacedContained, TreeResources, NeverWraps, Uses,
         Allocate, ConstrainAll, NarrowAll, BeforeAllocating, AfterSizing, Configure, ResourceMax;
    var bus, w, f := dev.links[0], dev.resources[i], DomainFilter(dev.resources[i]);
    var u, v, t := AfterSizing(dev, s), BeforeAllocating(dev, i, s), Configure(dev, s);
    SoleWellFormed(dev, i);
    AllFitContained(bus, w, f, v);
    ContainedIsPlaced(bus, f, Get(v, w).base, Get(v, w).limit, Allocate(bus, w, f, v));
    SoleFinal(dev, i, s);
    PlacedContainedFrame(bus, f, Get(v, w).base, Get(v, w).limit, Allocate(bus, w, f, v), t);
    UsesWithin(bus, f, Get(v, w).base, Get(v, w).limit, t, x);
    SoleBeforeAllocating(dev, i, s);
    AllAvoided(TreeResources(dev), u, NarrowAll(dev.resources, u), true);
    assert DomainLimits(dev, u).io.Has(x);
  }

  /** The two passes on the I/O window: if it has been moved to an aligned place, or has
      nothing to hold, nothing at any depth misfits exactly when its extent fits from there
      and what lies behind stranded windows fits. */
  lemma PortsConfigured(dev: Device, i: nat, s: State)
    requires dev.links != [] && i < |dev.resources| && DomainWellFormed(dev) && SolePorts(dev, i)
    requires var w, f := dev.resources[i], DomainFilter(dev.resources[i]);
             Get(s, w).base == 0 && WindowsAtZero(dev.links[0], f, s)
    requires var bus, w, f := dev.links[0], dev.resources[i], DomainFilter(dev.resources[i]);
             var v := BeforeAllocating(dev, i, s);
             Extent(bus, f, AfterSizing(dev, s)) == 0 || WindowAligned(true, Get(v, w).base, Get(v, w).align)
    ensures var bus, w, f := dev.links[0], dev.resources[i], DomainFilter(dev.resources[i]);
            var u, v := AfterSizing(dev, s), BeforeAllocating(dev, i, s);
            AllFit(bus, w, f, v) <==>
              ExtentFits(Get(v, w).base, Extent(bus, f, u), Get(v, w).limit) && StrandedFit(bus, f, u)
  {
    hide Footprint, DomainWellFormed, WellFormed, WindowsAtZero, WindowSized, TreeSized, StrandedFit, Ready, AllFit,
         Extent, BeforeAllocating, AfterSizing, WindowAligned, ResourceMax, DomainLimits;
    var bus, w, f := dev.links[0], dev.resources[i], DomainFilter(dev.resources[i]);
    var u, v := AfterSizing(dev, s), BeforeAllocating(dev, i, s);
    SoleWellFormed(dev, i);
    AfterSizingIs(dev, s);
    SoleSized(dev, i, s);
    SoleBeforeAllocating(dev, i, s);
    SizedIsReady(bus, w, f, s, u, v);
    TreeSizedFrame(bus, f, s, s, u, v);
    TwoPassExact(bus, w, f, s, v);
    StrandedFitFrame(bus, f, u, v);
  }
}
