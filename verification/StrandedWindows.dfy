/** Two small device trees on which a disabled bridge spoils the result: its window is
    sized and descended into like any other, but no bus ever places it. */
module StrandedWindows {
  import opened Wrappers
  import opened PowersOfTwo
  import opened ResourceOrder
  import opened ResourceTree
  import opened BusLayout
  import opened AllocatorState
  import opened SizingPass
  import opened AllocationPass
  import opened TwoPass
  import opened Addresses
  import opened FixedResources
  import opened DeviceConfigure

  /** A memory resource; a window leads to link 0. */
  predicate Plain(r: Resource, bridge: bool, fixed: bool) {
    LinkOfIndex(r.index) == 0 && r.kind == Mem && !r.prefetch && !r.subtractive && r.bridge == bridge
      && r.fixed == fixed
  }

  predicate AllPlain(rs: seq<Resource>, fixed: bool) {
    forall r | r in rs :: Plain(r, false, fixed)
  }

  /** A bus with one device, which has these resources. */
  function BusBehind(behind: seq<Resource>): Bus { Bus(0, [Device(true, behind, [])]) }

  /** A bus with a disabled bridge, whose window is `w` and behind which there is a device
      with the resources `behind`, and with a device beside it. */
  function Root(w: Resource, behind: seq<Resource>, beside: seq<Resource>): Bus {
    Bus(0, [Device(false, [w], [BusBehind(behind)]), Device(true, beside, [])])
  }

  const ANY_MEMORY: Filter := Filter(Mem, None)
  const SUB_MEMORY: Filter := Filter(Mem, Some(false))

  // ----- the walks over these trees

  lemma {:induction false} PlainResources(rs: seq<Resource>, fixed: bool, j: nat, f: Filter)
    requires AllPlain(rs, fixed) && j <= |rs| && (f == ANY_MEMORY || f == SUB_MEMORY)
    ensures DeviceResources(Device(true, rs, []), j, f) == rs[j..]
    ensures DeviceWindows(Device(true, rs, []), j, f) == []
    decreases |rs| - j
  {
    if j < |rs| {
      PlainResources(rs, fixed, j + 1, f);
      assert rs[j] in rs && Matches(rs[j], f);
      assert rs[j..] == [rs[j]] + rs[j + 1..];
    }
  }

  lemma BehindIs(behind: seq<Resource>, f: Filter)
    requires AllPlain(behind, false) && (f == ANY_MEMORY || f == SUB_MEMORY)
    ensures BusResources(BusBehind(behind), f) == behind && Windows(BusBehind(behind), f) == []
  {
    PlainResources(behind, false, 0, f);
    var bus := BusBehind(behind);
    assert ChildrenResources(bus, 1, f) == [] && ChildrenWindows(bus, 1, f) == [];
  }

  lemma RootIs(w: Resource, behind: seq<Resource>, beside: seq<Resource>)
    requires Plain(w, true, false) && AllPlain(beside, true)
    ensures BusResources(Root(w, behind, beside), ANY_MEMORY) == beside
    ensures Windows(Root(w, behind, beside), ANY_MEMORY) == [Window(w, BusBehind(behind))]
    ensures SubFilter(ANY_MEMORY, w) == SUB_MEMORY
  {
    var bus := Root(w, behind, beside);
    var dev := bus.children[0];
    PlainResources(beside, true, 0, ANY_MEMORY);
    assert ChildrenResources(bus, 2, ANY_MEMORY) == [] && ChildrenWindows(bus, 2, ANY_MEMORY) == [];
    assert ChildrenResources(bus, 1, ANY_MEMORY) == beside && ChildrenWindows(bus, 1, ANY_MEMORY) == [];
    assert FindLink(dev.links, LinkOfIndex(w.index)) == Some(0);
    assert DeviceWindows(dev, 1, ANY_MEMORY) == [];
  }

  lemma BehindTree(behind: seq<Resource>)
    requires AllPlain(behind, false) && Distinct(behind)
    ensures Footprint(BusBehind(behind), SUB_MEMORY) == ToSet(behind) && WellFormed(BusBehind(behind), SUB_MEMORY)
  {
    hide Footprint, WellFormed, BusResources, Windows, ToSet, Distinct, Plain, BusBehind, LinksFound;
    BehindIs(behind, SUB_MEMORY);
    BehindLinks(behind);
    NothingBehind(BusBehind(behind), SUB_MEMORY);
  }

  lemma BehindLinks(behind: seq<Resource>)
    ensures LinksFound(BusBehind(behind), SUB_MEMORY)
  {
    hide IsWindow, LinkOfIndex;
  }

  lemma NothingBehind(bus: Bus, f: Filter)
    requires Windows(bus, f) == [] && LinksFound(bus, f) && Distinct(BusResources(bus, f))
    ensures WellFormed(bus, f) && Footprint(bus, f) == ToSet(BusResources(bus, f))
  {
    hide BusResources, Windows, LinksFound, Distinct, ToSet;
  }

  lemma KindsApart(w: Resource, behind: seq<Resource>, beside: seq<Resource>)
    requires Plain(w, true, false) && AllPlain(behind, false) && AllPlain(beside, true)
    ensures ToSet(behind) !! {w} + ToSet(beside) && w !in beside
  {
    assert forall r | r in ToSet(behind) :: !r.bridge && !r.fixed;
    assert forall r | r in ToSet(beside) :: !r.bridge && r.fixed;
  }

  lemma TreeIs(w: Resource, behind: seq<Resource>, beside: seq<Resource>)
    requires Plain(w, true, false) && AllPlain(behind, false) && AllPlain(beside, true)
    requires Distinct(behind) && Distinct(beside)
    ensures var bus := Root(w, behind, beside);
            && Footprint(bus, ANY_MEMORY) == {w} + ToSet(behind) + ToSet(beside)
            && WellFormed(bus, ANY_MEMORY) && Stranded(bus, ANY_MEMORY, w)
  {
    var bus := Root(w, behind, beside);
    BehindTree(behind);
    RootIs(w, behind, beside);
    assert LinksFound(bus, ANY_MEMORY);
    hide BusResources, Windows, BusBehind, LinksFound, ToSet;
    var ws := Windows(bus, ANY_MEMORY);
    assert ws[0] in ws;
    assert Level(bus, ANY_MEMORY) == {w} + ToSet(beside);
    KindsApart(w, behind, beside);
    assert Footprint(bus, ANY_MEMORY) == Level(bus, ANY_MEMORY) + Footprint(ws[0].link, SUB_MEMORY);
  }

  /** All of this at once. */
  lemma Shape(w: Resource, behind: seq<Resource>, beside: seq<Resource>)
    requires Plain(w, true, false) && AllPlain(behind, false) && AllPlain(beside, true)
    requires Distinct(behind) && Distinct(beside)
    ensures var bus, link := Root(w, behind, beside), BusBehind(behind);
            && WellFormed(bus, ANY_MEMORY) && Footprint(bus, ANY_MEMORY) == {w} + ToSet(behind) + ToSet(beside)
            && BusResources(bus, ANY_MEMORY) == beside && Windows(bus, ANY_MEMORY) == [Window(w, link)]
            && BusResources(link, SUB_MEMORY) == behind && Windows(link, SUB_MEMORY) == []
            && SubFilter(ANY_MEMORY, w) == SUB_MEMORY && Stranded(bus, ANY_MEMORY, w)
  {
    hide Footprint, WellFormed, BusResources, Windows, Stranded, Root, BusBehind, Plain;
    TreeIs(w, behind, beside);
    RootIs(w, behind, beside);
    BehindIs(behind, SUB_MEMORY);
  }

  lemma ListsPlain(p: Resource, fixed: bool)
    ensures AllPlain([], fixed) && Distinct<Resource>([])
            && (Plain(p, false, fixed) ==> AllPlain([p], fixed) && Distinct([p]))
    ensures p in ToSet([p])
  {
    assert [p][0] == p;
  }

  lemma PairPlain(p: Resource, q: Resource)
    requires Plain(p, false, false) && Plain(q, false, false) && p != q
    ensures AllPlain([p, q], false) && Distinct([p, q]) && !p.fixed && !q.fixed
    ensures ToSet([p, q]) == {p, q}
  {
    assert [p, q][0] == p && [p, q][1] == q;
  }

  // ----- the sizing pass on these trees

  /** Sizing changes no size, alignment or limit of a device's resource, and nothing fixed. */
  lemma Sized(bridge: Resource, w: Resource, behind: seq<Resource>, beside: seq<Resource>, s: State)
    requires Plain(w, true, false) && AllPlain(behind, false) && AllPlain(beside, true)
    requires Distinct(behind) && Distinct(beside) && bridge !in Footprint(Root(w, behind, beside), ANY_MEMORY)
    ensures var t := Compute(Root(w, behind, beside), bridge, ANY_MEMORY, s);
            && SameNeeds(ToSet(behind), s, t) && SameNeeds(ToSet(beside), s, t)
            && forall r | r in ToSet(beside) :: Get(t, r).base == Get(s, r).base
  {
    var bus, link := Root(w, behind, beside), BusBehind(behind);
    TreeIs(w, behind, beside);
    BehindTree(behind);
    RootIs(w, behind, beside);
    BehindIs(behind, SUB_MEMORY);
    KindsApart(w, behind, beside);
    var t := Compute(link, w, SUB_MEMORY, s);
    BehindSized(link, w, SUB_MEMORY, s);
    RootSized(bus, bridge, link, w, s);
    hide BusResources, Windows, Footprint, WellFormed, BusBehind, Compute, Root, SizeLevel, WindowSized, SameNeeds,
         OnlyChanges, ToSet, Plain, Order, Agree;
    LevelMembers(behind);
    LevelMembers(beside);
    SizeLevelSizes(link, w, SUB_MEMORY, s);
    ComputeOnlyChanges(link, w, SUB_MEMORY, s);
    SizeLevelSizes(bus, bridge, ANY_MEMORY, t);
    AgreeApart(ToSet(beside), ToSet(behind) + {w}, s, t);
    AgreeNeeds(ToSet(beside), s, t);
    SameNeedsTrans(ToSet(behind), s, t, Compute(bus, bridge, ANY_MEMORY, s));
    SameNeedsTrans(ToSet(beside), s, t, Compute(bus, bridge, ANY_MEMORY, s));
  }

  lemma LevelMembers(rs: seq<Resource>)
    ensures forall r :: r in rs <==> r in ToSet(rs)
  {}

  lemma AgreeNeeds(d: set<Resource>, s: State, t: State)
    requires Agree(d, s, t)
    ensures SameNeeds(d, s, t) && forall r | r in d :: Get(t, r).base == Get(s, r).base
  {}

  lemma SameNeedsTrans(d: set<Resource>, s: State, t: State, u: State)
    requires SameNeeds(d, s, t) && SameNeeds(d, t, u)
    ensures SameNeeds(d, s, u)
  {}

  /** A bus without windows is only laid out. */
  lemma BehindSized(bus: Bus, bridge: Resource, f: Filter, s: State)
    requires Windows(bus, f) == []
    ensures Compute(bus, bridge, f, s)
            == SizeLevel(bus, bridge, f, RoundUp(Get(s, bridge).base, Get(s, bridge).align), s)
  {
    hide Windows, SizeLevel;
  }

  lemma RootSized(bus: Bus, bridge: Resource, link: Bus, w: Resource, s: State)
    requires Windows(bus, ANY_MEMORY) == [Window(w, link)] && SubFilter(ANY_MEMORY, w) == SUB_MEMORY
    requires bridge != w && bridge !in Footprint(link, SUB_MEMORY)
    ensures var t := Compute(link, w, SUB_MEMORY, s);
            Compute(bus, bridge, ANY_MEMORY, s)
            == SizeLevel(bus, bridge, ANY_MEMORY, RoundUp(Get(t, bridge).base, Get(t, bridge).align), t)
  {
    hide SizeLevel, Footprint, OnlyChanges;
    ComputeOnlyChanges(link, w, SUB_MEMORY, s);
    var t := Compute(link, w, SUB_MEMORY, s);
    Unchanged(Footprint(link, SUB_MEMORY) + {w}, s, t, bridge);
    assert ComputeWindows(bus, ANY_MEMORY, 0, s) == s;
    assert ComputeWindows(bus, ANY_MEMORY, 1, s) == t;
  }

  // ----- a misfit behind a disabled bridge

  function Empty(limit: nat, align: nat): Attr { Attr(0, 0, limit, align, false, false) }

  /** A bus with nothing but fixed resources has nothing to lay out. */
  lemma FixedExtent(bus: Bus, f: Filter, s: State)
    requires forall r | r in BusResources(bus, f) :: r.fixed
    ensures Order(KeysIn(BusResources(bus, f), s), None) == [] && Extent(bus, f, s) == 0
  {
    hide BusResources, Order;
    var rs := BusResources(bus, f);
    assert forall j: nat | j < |rs| :: rs[j] in rs;
    OrderIsUnique(KeysIn(rs, s), None, []);
  }

  /** Two resources in the order in which they are laid out. */
  lemma TwoExtent(bus: Bus, p: Resource, q: Resource, s: State)
    requires BusResources(bus, SUB_MEMORY) == [p, q] && !p.fixed && !q.fixed
    requires Get(s, p).align == 32 && Get(s, p).size == 0x1_0000_0000 && Get(s, q).align == 4 && Get(s, q).size == 16
    ensures Extent(bus, SUB_MEMORY, s) == 0x1_0000_0010
  {
    hide BusResources, Order, RoundTo;
    var keys := KeysIn([p, q], s);
    OrderIsUnique(keys, None, [0, 1]);
    MultipleOf(0, Pow2(32));
    RoundUpFixpoint(0, 32);
    SmallPowers();
    MultipleOfSmaller(0x1_0000_0000, 32, 4);
    RoundUpFixpoint(0x1_0000_0000, 4);
    assert [0, 1][..1] == [0] && [0][..0] == [];
    assert After(false, 0, keys, [0]) == 0x1_0000_0000;
  }

  lemma WindowLimit(window: Resource, bus: Bus, f: Filter, s0: State, s: State)
    requires WindowSized(window, bus, f, s0, s)
    ensures Get(s, window).limit <= Get(s0, window).limit
  {
    hide BusResources, Order, After, RoundTo;
    var rs := BusResources(bus, f);
    MinLimitProperties(Get(s0, window).limit, KeysIn(rs, s), LimitsIn(rs, s), Order(KeysIn(rs, s), None));
  }

  /** Behind the bridge a 64-bit resource of 4 GiB comes first and a small one second, but
      the window ends at 4 GiB.  Although the bus itself fits its window, the pass takes the
      "didn't fit" branch. */
  lemma DisabledBridgeMisfits(bridge: Resource, w: Resource, p: Resource, q: Resource, s: State)
    requires Plain(w, true, false) && Plain(p, false, false) && Plain(q, false, false) && p != q && bridge !in {w, p, q}
    requires Get(s, bridge) == Empty(0xffff_ffff, 0) && Get(s, w) == Empty(0xffff_ffff, 20)
    requires Get(s, p) == Empty(MAX_ADDRESS, 32).(size := 0x1_0000_0000)
             && Get(s, q) == Empty(0xffff_ffff, 4).(size := 16)
    ensures var bus, f := Root(w, [p, q], []), ANY_MEMORY;
            var t := Compute(bus, bridge, f, s);
            && WellFormed(bus, f) && bridge !in Footprint(bus, f) && WindowsAtZero(bus, f, s)
            && Ready(bus, bridge, f, t) && TreeSized(bus, f, s, t)
            && ExtentFits(Get(t, bridge).base, Extent(bus, f, t), Get(t, bridge).limit)
            && !StrandedFit(bus, f, t) && !AllFit(bus, bridge, f, t)
  {
    hide Root, BusBehind, BusResources, Windows, WellFormed, Footprint, Compute, Plain, AllPlain, ToSet, Stranded,
         TreeSized, WindowSized, Ready, Extent, StrandedFit, AllFit, WindowsAtZero, LinkOfIndex, Distinct;
    var bus, f, link := Root(w, [p, q], []), ANY_MEMORY, BusBehind([p, q]);
    var t := Compute(bus, bridge, f, s);
    PairPlain(p, q);
    ListsPlain(p, true);
    NoneIn();
    Shape(w, [p, q], []);
    Sized(bridge, w, [p, q], [], s);
    AtZero(bus, w, link, s);
    OnlyFixed(bus, bridge, s);
    TreeSizedAt(bus, f, s, t, 0);
    WindowLimit(w, link, SUB_MEMORY, s, t);
    TwoExtent(link, p, q, t);
    StrandedFitAt(bus, f, t, 0);
    TwoPassExact(bus, bridge, f, s, t);
  }

  lemma NoneIn()
    ensures ToSet([]) == {}
  {}

  /** A bus with only fixed resources is ready after sizing, and fits any window. */
  lemma OnlyFixed(bus: Bus, bridge: Resource, s: State)
    requires WellFormed(bus, ANY_MEMORY) && bridge !in Footprint(bus, ANY_MEMORY)
    requires forall r | r in BusResources(bus, ANY_MEMORY) :: r.fixed
    ensures var t := Compute(bus, bridge, ANY_MEMORY, s);
            && Ready(bus, bridge, ANY_MEMORY, t) && TreeSized(bus, ANY_MEMORY, s, t) && Extent(bus, ANY_MEMORY, t) == 0
  {
    hide BusResources, WellFormed, Footprint, Compute, TreeSized, Extent;
    ComputeSizes(bus, bridge, ANY_MEMORY, s);
    FixedExtent(bus, ANY_MEMORY, Compute(bus, bridge, ANY_MEMORY, s));
  }

  lemma AtZero(bus: Bus, w: Resource, link: Bus, s: State)
    requires Windows(bus, ANY_MEMORY) == [Window(w, link)] && Get(s, w).base == 0 && Windows(link, SUB_MEMORY) == []
    requires SubFilter(ANY_MEMORY, w) == SUB_MEMORY
    ensures WindowsAtZero(bus, ANY_MEMORY, s)
  {
    hide Windows;
    assert WindowsAtZero(link, SUB_MEMORY, s);
  }

  lemma StrandedFitAt(bus: Bus, f: Filter, s: State, i: nat)
    requires i < |Windows(bus, f)| && Stranded(bus, f, Windows(bus, f)[i].res)
    ensures var w := Windows(bus, f)[i];
            StrandedFit(bus, f, s) ==>
              ExtentFits(Get(s, w.res).base, Extent(w.link, SubFilter(f, w.res), s), Get(s, w.res).limit)
  {
    hide Windows, Stranded, Extent;
    if StrandedFit(bus, f, s) { assert StrandedFitUpTo(bus, f, |Windows(bus, f)|, s); }
  }

  // ----- an overlap behind a disabled bridge

  /** One resource, laid out at 0; the window takes its limit. */
  lemma OneExtent(window: Resource, bus: Bus, p: Resource, s0: State, s: State)
    requires WindowSized(window, bus, SUB_MEMORY, s0, s) && BusResources(bus, SUB_MEMORY) == [p] && !p.fixed
             && Get(s, p).size > 0
    ensures Extent(bus, SUB_MEMORY, s) == Get(s, p).size && Offset(bus, SUB_MEMORY, s, p) == 0
    ensures Get(s, window).limit == Min(Get(s0, window).limit, Get(s, p).limit)
  {
    hide BusResources, RoundTo, Offset, Order;
    var rs := [p];
    var keys := KeysIn(rs, s);
    OrderIsUnique(keys, None, [0]);
    MultipleOf(0, Pow2(Get(s, p).align));
    RoundUpFixpoint(0, Get(s, p).align);
    assert [0][..0] == [];
    assert MinLimit(Get(s0, window).limit, keys, LimitsIn(rs, s), []) == Get(s0, window).limit;
    OffsetIs(bus, SUB_MEMORY, s, 0);
  }

  /** A window with nothing to place behind it keeps its limit and gets no size. */
  lemma EmptyWindow(window: Resource, bus: Bus, f: Filter, s0: State, s: State)
    requires WindowSized(window, bus, f, s0, s) && Get(s0, window).base == 0
    requires forall r | r in BusResources(bus, f) :: r.fixed
    ensures Get(s, window).size == 0 && Get(s, window).limit == Get(s0, window).limit
            && Get(s, window).align == Get(s0, window).align
  {
    hide BusResources, RoundTo, Order;
    FixedExtent(bus, f, s);
    MultipleOf(0, Pow2(Get(s, window).align));
    MultipleOf(0, Pow2(Get(s0, window).align));
    MultipleOf(0, Pow2(window.gran));
    RoundUpFixpoint(0, Get(s, window).align);
    RoundUpFixpoint(0, Get(s0, window).align);
    RoundUpFixpoint(0, window.gran);
  }

  /** A domain with the memory window `v`, over a bus with a disabled bridge. */
  function Domain(v: Resource, w: Resource, p: Resource, x: Resource): Device { Device(true, [v], [Root(w, [p], [x])]) }

  predicate Roles(v: Resource, w: Resource, p: Resource, x: Resource) {
    && v.kind == Mem && !v.fixed && v !in {w, p, x}
    && Plain(w, true, false) && Plain(p, false, false) && Plain(x, false, true)
  }

  lemma DomainIs(v: Resource, w: Resource, p: Resource, x: Resource, s: State)
    requires Roles(v, w, p, x)
    ensures var dev := Domain(v, w, p, x);
            && DomainWellFormed(dev) && SoleMemory(dev, 0) && DomainFilter(v) == ANY_MEMORY
               && TreeResources(dev) == [v, x]
            && AfterSizing(dev, s) == Compute(dev.links[0], v, ANY_MEMORY, s)
            && WellFormed(dev.links[0], ANY_MEMORY) && v !in Footprint(dev.links[0], ANY_MEMORY)
  {
    hide Footprint, WellFormed, Compute, TreeResources, Root, Plain, AllPlain, ToSet, Distinct, BusResources, Windows,
         Stranded, Domain, DomainCompute;
    var dev := Domain(v, w, p, x);
    RolesPlain(v, w, p, x);
    Shape(w, [p], [x]);
    DomainTree(v, w, p, x);
    DomainFields(v, w, p, x);
    SoleResource(dev, v, s);
  }

  lemma DomainFields(v: Resource, w: Resource, p: Resource, x: Resource)
    ensures var dev := Domain(v, w, p, x);
            dev.resources == [v] && dev.links == [Root(w, [p], [x])]
  {}

  lemma SoleResource(dev: Device, v: Resource, s: State)
    requires dev.resources == [v] && dev.links != [] && v.kind == Mem && !v.fixed
    requires WellFormed(dev.links[0], ANY_MEMORY) && v !in Footprint(dev.links[0], ANY_MEMORY)
    ensures DomainWellFormed(dev) && SoleMemory(dev, 0) && DomainFilter(v) == ANY_MEMORY
    ensures AfterSizing(dev, s) == Compute(dev.links[0], v, ANY_MEMORY, s)
  {
    hide Footprint, WellFormed, Compute;
    assert dev.resources[0] == v && Allocatable(v);
    assert DomainCompute(dev, 0, s) == s;
  }

  lemma DomainTree(v: Resource, w: Resource, p: Resource, x: Resource)
    ensures TreeResources(Domain(v, w, p, x)) == [v, x]
  {
    var dev := Domain(v, w, p, x);
    var bus, below := dev.links[0], Device(true, [x], []);
    assert LinkResources(below, 0) == [];
    assert TreeResources(below) == [x];
    assert bus.children[1] == below && !bus.children[0].enabled;
    assert EnabledResources(bus, 2) == [];
    assert EnabledResources(bus, 1) == [x];
    assert EnabledResources(bus, 0) == [x];
    assert LinkResources(dev, 1) == [];
    assert LinkResources(dev, 0) == [x];
  }

  /** The fields before the passes: 640 KiB of memory at 0, and a resource of 64 KiB behind
      the disabled bridge. */
  ghost predicate Before(v: Resource, w: Resource, p: Resource, x: Resource, s: State) {
    && Get(s, v) == Empty(0xffff_ffff, 0) && Get(s, w) == Empty(0xffff_ffff, 20)
    && Get(s, p) == Empty(0xffff_ffff, 16).(size := 0x1_0000) && Get(s, x) == Empty(0xffff_ffff, 0).(size := 0xA_0000)
  }

  /** What the sizing pass makes of them. */
  lemma OverlapSized(v: Resource, w: Resource, p: Resource, x: Resource, s: State)
    requires Roles(v, w, p, x) && Before(v, w, p, x, s)
    ensures var bus := Root(w, [p], [x]);
            var u := Compute(bus, v, ANY_MEMORY, s);
            && Get(u, v).base == 0 && Get(u, v).size == 0 && Get(u, v).limit == 0xffff_ffff && Get(u, v).align == 0
            && Get(u, x).base == 0 && Get(u, x).size == 0xA_0000
            && WindowsAtZero(bus, ANY_MEMORY, s) && StrandedFit(bus, ANY_MEMORY, u)
               && StrandedOver(bus, ANY_MEMORY, u, 0)
  {
    hide Root, BusBehind, BusResources, Windows, WellFormed, Footprint, Compute, Plain, AllPlain, ToSet, Stranded,
         TreeSized, WindowSized, Ready, Extent, StrandedFit, WindowsAtZero, LinkOfIndex, Distinct, Offset,
         StrandedOver;
    var bus, link := Root(w, [p], [x]), BusBehind([p]);
    var u := Compute(bus, v, ANY_MEMORY, s);
    RolesPlain(v, w, p, x);
    Shape(w, [p], [x]);
    Sized(v, w, [p], [x], s);
    AtZero(bus, w, link, s);
    ComputeSizes(bus, v, ANY_MEMORY, s);
    ComputeKeepsBase(bus, v, ANY_MEMORY, s);
    EmptyWindow(v, bus, ANY_MEMORY, s, u);
    TreeSizedAt(bus, ANY_MEMORY, s, u, 0);
    OneExtent(w, link, p, s, u);
    OneStranded(bus, w, link, p, u);
  }

  lemma RolesPlain(v: Resource, w: Resource, p: Resource, x: Resource)
    requires Roles(v, w, p, x)
    ensures AllPlain([p], false) && AllPlain([x], true) && Distinct([p]) && Distinct([x]) && Plain(w, true, false)
    ensures x.kind == Mem && v.kind == Mem && !v.fixed
    ensures !p.fixed && x.fixed && ToSet([p]) == {p} && ToSet([x]) == {x} && v !in {w} + ToSet([p]) + ToSet([x])
  {
    assert [p][0] == p && [x][0] == x;
  }

  lemma OneStranded(bus: Bus, w: Resource, link: Bus, p: Resource, u: State)
    requires Windows(bus, ANY_MEMORY) == [Window(w, link)] && Stranded(bus, ANY_MEMORY, w)
             && SubFilter(ANY_MEMORY, w) == SUB_MEMORY
    requires Windows(link, SUB_MEMORY) == [] && BusResources(link, SUB_MEMORY) == [p] && !p.fixed
    requires Get(u, p).size == Extent(link, SUB_MEMORY, u) == 0x1_0000 && Offset(link, SUB_MEMORY, u, p) == 0
    requires Get(u, w).base == 0 && Get(u, w).limit == 0xffff_ffff
    ensures StrandedFit(bus, ANY_MEMORY, u) && StrandedOver(bus, ANY_MEMORY, u, 0)
  {
    hide Windows, BusResources, Stranded, Offset, Extent;
    assert StrandedFit(link, SUB_MEMORY, u);
    assert p in BusResources(link, SUB_MEMORY);
    assert LevelOver(link, SUB_MEMORY, 0, u, 0);
    assert Windows(bus, ANY_MEMORY)[0] == Window(w, link);
  }

  /** The limits of the domain are moved past the memory at 0, and its window with them. */
  lemma OverlapLimits(v: Resource, w: Resource, p: Resource, x: Resource, s: State)
    requires Roles(v, w, p, x)
    requires var u := AfterSizing(Domain(v, w, p, x), s);
             && Get(u, v).base == 0 && Get(u, v).size == 0 && Get(u, v).limit == 0xffff_ffff && Get(u, v).align == 0
             && Get(u, x).base == 0 && Get(u, x).size == 0xA_0000
    ensures var dev := Domain(v, w, p, x);
            var u := AfterSizing(dev, s);
            && NarrowAll(dev.resources, u).mem.InWord()
               && NeverWraps(TreeResources(dev), u, NarrowAll(dev.resources, u), false)
            && InLimits(DomainLimits(dev, u).mem, Get(BeforeAllocating(dev, 0, s), v))
  {
    hide AfterSizing, BeforeAllocating, DomainWellFormed, SoleMemory, Footprint, WellFormed, TreeResources, Domain,
         Agree, Compute, Avoid, Wraps, NeverWraps, ResourceMax, Constrain, ConstrainAll, NarrowAll, Narrow, Settle,
         Plain, Roles, Root, DomainFilter;
    var dev := Domain(v, w, p, x);
    DomainFields(v, w, p, x);
    var u := AfterSizing(dev, s);
    RolesPlain(v, w, p, x);
    DomainIs(v, w, p, x, s);
    SoleBeforeAllocating(dev, 0, s);
    LowLimits(v, x, u);
    LowMemoryNeverWraps([v, x], u, NarrowAll([v], u), false, 0xA_0000);
  }

  lemma LowLimits(v: Resource, x: Resource, u: State)
    requires v.kind == Mem && !v.fixed && x.kind == Mem && x.fixed
    requires Get(u, v).base == 0 && Get(u, v).size == 0 && Get(u, v).limit == 0xffff_ffff && Get(u, v).align == 0
    requires Get(u, x).base == 0 && Get(u, x).size == 0xA_0000
    ensures NarrowAll([v], u).mem == Range(0, 0xffff_ffff)
    ensures var lim := ConstrainAll([v, x], u, NarrowAll([v], u));
            lim.mem == Range(0xA_0000, 0xffff_ffff) && InLimits(lim.mem, Settle(lim, v, Get(u, v)))
  {
    assert [v][..0] == [];
    assert [v, x][1..] == [x] && [x][1..] == [];
    var lim := NarrowAll([v], u);
    assert NarrowAll([], u) == Limits(Range(0, MAX_ADDRESS), Range(0, MAX_ADDRESS));
    assert lim.mem == Range(0, 0xffff_ffff);
    WordIs(0x9_ffff);
    WordIs(0xffff_ffff - 0x9_ffff);
    assert GoesAbove(lim.mem, 0, 0xA_0000);
    assert ConstrainAll([x], u, lim).mem == Range(0xA_0000, 0xffff_ffff);
  }

  /** Everything fits, the domain window is clear of the memory at 0, and still the resource
      behind the disabled bridge is given address 0. */
  lemma DisabledBridgeOverlaps(v: Resource, w: Resource, p: Resource, x: Resource, s: State)
    requires Roles(v, w, p, x) && Before(v, w, p, x, s)
    ensures var dev := Domain(v, w, p, x);
            var bus, u := dev.links[0], AfterSizing(dev, s);
            && DomainWellFormed(dev) && SoleMemory(dev, 0) && DomainFilter(v) == ANY_MEMORY
            && WindowsAtZero(bus, ANY_MEMORY, s)
               && InLimits(DomainLimits(dev, u).mem, Get(BeforeAllocating(dev, 0, s), v))
            && NarrowAll(dev.resources, u).mem.InWord()
               && NeverWraps(TreeResources(dev), u, NarrowAll(dev.resources, u), false)
            && AllFit(bus, v, ANY_MEMORY, BeforeAllocating(dev, 0, s))
            && StrandedUses(bus, ANY_MEMORY, Configure(dev, s), 0) && FixedMemory(dev, u, 0)
  {
    hide AfterSizing, BeforeAllocating, DomainWellFormed, WellFormed, Footprint, TreeResources, Agree, Compute, Root,
         StrandedFit, StrandedOver, StrandedUses, Configure, AllFit, WindowsAtZero, InLimits, SoleMemory, NarrowAll,
         NeverWraps, DomainLimits, Domain, Plain, PlacedContained, DomainFilter, Roles, Before;
    var dev := Domain(v, w, p, x);
    DomainFields(v, w, p, x);
    var u := AfterSizing(dev, s);
    DomainIs(v, w, p, x, s);
    OverlapSized(v, w, p, x, s);
    OverlapLimits(v, w, p, x, s);
    StateBefore(v, w, p, x, s);
    MemoryConfigured(dev, 0, s);
    StrandedMemory(dev, 0, s, 0);
    RolesPlain(v, w, p, x);
    assert x in [v, x];
  }

  lemma StateBefore(v: Resource, w: Resource, p: Resource, x: Resource, s: State)
    requires Before(v, w, p, x, s)
    ensures Get(s, v).base == 0
  {}
}
