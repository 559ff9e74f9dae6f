/** The sizing pass, `compute_resources`: bottom up, every bridge window gets the size,
    alignment and limit that the resources behind it need. */
module SizingPass {
  import opened Wrappers
  import opened PowersOfTwo
  import opened ResourceOrder
  import opened ResourceTree
  import opened ResourceIterator
  import opened BusLayout
  import opened AllocatorState

  // ----- the pass as a function of the state

  /** The bridge with the greater alignment and the lesser limit. */
  ghost function Raised(b: Attr, a: Attr): Attr {
    b.(align := if a.align > b.align then a.align else b.align, limit := if b.limit > a.limit then a.limit else b.limit)
  }

  /** One resource of the bus is laid out at the next free offset. */
  ghost function SizeStep(io: bool, bridge: Resource, r: Resource, base: nat, s: State): (nat, State) {
    var a := Get(s, r);
    if a.size == 0 then (base, s)
    else
      var b := Get(s, bridge);
      var at := PlaceAt(io, base, a.align);
      (at + a.size,
       s[bridge := Raised(b, a)][r := a.(base := at)])
  }

  /** The first `m` resources in the order `ord`. */
  ghost function SizeRun(io: bool, bridge: Resource, rs: seq<Resource>, ord: seq<nat>, m: nat, start: nat,
                         s: State): (nat, State)
    requires m <= |ord| && forall k | 0 <= k < |ord| :: ord[k] < |rs|
  {
    if m == 0 then (start, s)
    else
      var (base, t) := SizeRun(io, bridge, rs, ord, m - 1, start, s);
      SizeStep(io, bridge, rs[ord[m - 1]], base, t)
  }

  /** The whole bus, and then the size of its bridge. */
  ghost function SizeLevel(bus: Bus, bridge: Resource, f: Filter, start: nat, s: State): State {
    var rs := BusResources(bus, f);
    var ord := Order(KeysIn(rs, s), None);
    var (end, t) := SizeRun(IsIo(f), bridge, rs, ord, |ord|, start, s);
    var b := Get(t, bridge);
    var size := RoundUp(end, bridge.gran) - RoundUp(b.base, b.align);
    t[bridge := b.(size := if size >= 0 then size else 0)]
  }

  ghost function ComputeWindows(bus: Bus, f: Filter, k: nat, s: State): State
    requires k <= |Windows(bus, f)|
    decreases bus, k
  {
    if k == 0 then s
    else
      var w := Windows(bus, f)[k - 1];
      Compute(w.link, w.res, SubFilter(f, w.res), ComputeWindows(bus, f, k - 1, s))
  }

  ghost function Compute(bus: Bus, bridge: Resource, f: Filter, s: State): State
    decreases bus, |Windows(bus, f)| + 1
  {
    var b := Get(s, bridge);
    SizeLevel(bus, bridge, f, RoundUp(b.base, b.align), ComputeWindows(bus, f, |Windows(bus, f)|, s))
  }

  // ----- the pass changes nothing but the window and what lies behind it

  lemma {:induction false} SizeRunOnlyChanges(io: bool, bridge: Resource, rs: seq<Resource>, ord: seq<nat>, m: nat,
                                              start: nat, s: State)
    requires m <= |ord| && forall k | 0 <= k < |ord| :: ord[k] < |rs|
    ensures OnlyChanges(ToSet(rs) + {bridge}, s, SizeRun(io, bridge, rs, ord, m, start, s).1)
  {
    if m > 0 {
      var (base, t) := SizeRun(io, bridge, rs, ord, m - 1, start, s);
      SizeRunOnlyChanges(io, bridge, rs, ord, m - 1, start, s);
      assert rs[ord[m - 1]] in ToSet(rs);
      assert OnlyChanges(ToSet(rs) + {bridge}, t, SizeStep(io, bridge, rs[ord[m - 1]], base, t).1);
      OnlyChangesTrans(ToSet(rs) + {bridge}, ToSet(rs) + {bridge}, s, t, SizeRun(io, bridge, rs, ord, m, start, s).1);
    }
  }

  lemma SizeLevelOnlyChanges(bus: Bus, bridge: Resource, f: Filter, start: nat, s: State)
    ensures OnlyChanges(ToSet(BusResources(bus, f)) + {bridge}, s, SizeLevel(bus, bridge, f, start, s))
  {
    var rs := BusResources(bus, f);
    var ord := Order(KeysIn(rs, s), None);
    var (end, t) := SizeRun(IsIo(f), bridge, rs, ord, |ord|, start, s);
    SizeRunOnlyChanges(IsIo(f), bridge, rs, ord, |ord|, start, s);
    OnlyChangesTrans(ToSet(rs) + {bridge}, ToSet(rs) + {bridge}, s, t, SizeLevel(bus, bridge, f, start, s));
  }

  lemma {:induction false} ComputeOnlyChanges(bus: Bus, bridge: Resource, f: Filter, s: State)
    ensures OnlyChanges(Footprint(bus, f) + {bridge}, s, Compute(bus, bridge, f, s))
    decreases bus, |Windows(bus, f)| + 1
  {
    hide Footprint, OnlyChanges, SizeLevel, BusResources;
    var n := |Windows(bus, f)|;
    var t := ComputeWindows(bus, f, n, s);
    ComputeWindowsOnlyChanges(bus, f, n, s);
    BehindWithin(bus, f, n);
    FootprintContains(bus, f);
    var b := Get(s, bridge);
    SizeLevelOnlyChanges(bus, bridge, f, RoundUp(b.base, b.align), t);
    OnlyChangesJoin(Behind(bus, f, n), ToSet(BusResources(bus, f)) + {bridge}, Footprint(bus, f) + {bridge},
                    s, t, Compute(bus, bridge, f, s));
  }

  lemma {:induction false} ComputeWindowsOnlyChanges(bus: Bus, f: Filter, k: nat, s: State)
    requires k <= |Windows(bus, f)|
    ensures OnlyChanges(Behind(bus, f, k), s, ComputeWindows(bus, f, k, s))
    decreases bus, k
  {
    hide Footprint, Compute, OnlyChanges, IsWindow, ChildrenWindows;
    if k == 0 {
      OnlyChangesRefl(Behind(bus, f, k), s);
    } else {
      var w := Windows(bus, f)[k - 1];
      var t := ComputeWindows(bus, f, k - 1, s);
      ComputeWindowsOnlyChanges(bus, f, k - 1, s);
      ComputeOnlyChanges(w.link, w.res, SubFilter(f, w.res), t);
      OnlyChangesJoin(Behind(bus, f, k - 1), Footprint(w.link, SubFilter(f, w.res)) + {w.res}, Behind(bus, f, k),
                      s, t, Compute(w.link, w.res, SubFilter(f, w.res), t));
    }
  }

  // ----- what one bus comes to

  /** `t` is `s` with the base of every non-empty resource among the first `m` set to its
      offset, and the bridge's alignment and limit adapted. */
  ghost predicate LaidOut(io: bool, bridge: Resource, rs: seq<Resource>, ord: seq<nat>, m: nat, start: nat, s: State,
                          t: State)
    requires m <= |ord| && ValidVisit(rs, ord) && bridge !in rs
  {
    var keys, limits := KeysIn(rs, s), LimitsIn(rs, s);
    && Get(t, bridge) == Get(s, bridge).(align := MaxAlign(Get(s, bridge).align, keys, ord[..m]),
                                         limit := MinLimit(Get(s, bridge).limit, keys, limits, ord[..m]))
    && (forall j | 0 <= j < |ord| ::
          Get(t, rs[ord[j]]) == if j < m && keys[ord[j]].size > 0
                                then Get(s, rs[ord[j]]).(base := OffsetOf(io, start, keys, ord, j))
                                else Get(s, rs[ord[j]]))
    && OnlyChanges({bridge} + (set j | 0 <= j < |ord| :: rs[ord[j]]), s, t)
  }

  lemma LaidOutKeys(io: bool, bridge: Resource, rs: seq<Resource>, ord: seq<nat>, m: nat, start: nat, s: State,
                    t: State)
    requires m <= |ord| && ValidVisit(rs, ord) && bridge !in rs && LaidOut(io, bridge, rs, ord, m, start, s, t)
    ensures KeysIn(rs, t) == KeysIn(rs, s) && LimitsIn(rs, t) == LimitsIn(rs, s)
  {
    forall i | 0 <= i < |rs|
      ensures Get(s, rs[i]).align == Get(t, rs[i]).align && Get(s, rs[i]).size == Get(t, rs[i]).size
      ensures Get(s, rs[i]).limit == Get(t, rs[i]).limit
    {
      if j :| 0 <= j < |ord| && ord[j] == i {
      } else {
        assert rs[i] !in {bridge} + (set j | 0 <= j < |ord| :: rs[ord[j]]);
      }
    }
    SameKeys(rs, s, t);
    SameLimits(rs, s, t);
  }

  lemma LaidOutStep(io: bool, bridge: Resource, rs: seq<Resource>, ord: seq<nat>, m: nat, start: nat, base: nat,
                    s: State, t: State)
    requires m < |ord| && ValidVisit(rs, ord) && bridge !in rs && LaidOut(io, bridge, rs, ord, m, start, s, t)
    requires base == After(io, start, KeysIn(rs, s), ord[..m])
    ensures var (base', t') := SizeStep(io, bridge, rs[ord[m]], base, t);
            && base' == After(io, start, KeysIn(rs, s), ord[..m + 1])
            && LaidOut(io, bridge, rs, ord, m + 1, start, s, t')
  {
    hide After, MaxAlign, MinLimit, PlaceAt, Precedes;
    var keys, limits, r := KeysIn(rs, s), LimitsIn(rs, s), rs[ord[m]];
    FoldStep(io, start, Get(s, bridge).align, Get(s, bridge).limit, keys, limits, ord, m);
    assert keys[ord[m]] == Key(Get(t, r).align, Get(t, r).size, r.fixed) && limits[ord[m]] == Get(t, r).limit;
  }

  lemma {:induction false} SizeRunClosed(io: bool, bridge: Resource, rs: seq<Resource>, ord: seq<nat>, m: nat,
                                         start: nat, s: State)
    requires m <= |ord| && ValidVisit(rs, ord) && bridge !in rs
    ensures var (base, t) := SizeRun(io, bridge, rs, ord, m, start, s);
            && base == After(io, start, KeysIn(rs, s), ord[..m])
            && LaidOut(io, bridge, rs, ord, m, start, s, t)
  {
    if m > 0 {
      hide LaidOut, After, SizeStep;
      SizeRunClosed(io, bridge, rs, ord, m - 1, start, s);
      var (base, t) := SizeRun(io, bridge, rs, ord, m - 1, start, s);
      LaidOutStep(io, bridge, rs, ord, m - 1, start, base, s, t);
    }
  }

  lemma SizeRunKeys(io: bool, bridge: Resource, rs: seq<Resource>, ord: seq<nat>, m: nat, start: nat, s: State)
    requires m <= |ord| && Distinct(rs) && bridge !in rs && ord == Order(KeysIn(rs, s), None)
    ensures KeysIn(rs, SizeRun(io, bridge, rs, ord, m, start, s).1) == KeysIn(rs, s)
  {
    OrderIsStableSort(KeysIn(rs, s));
    SizeRunClosed(io, bridge, rs, ord, m, start, s);
    LaidOutKeys(io, bridge, rs, ord, m, start, s, SizeRun(io, bridge, rs, ord, m, start, s).1);
  }

  lemma LevelSizeNonNegative(io: bool, bridge: Resource, rs: seq<Resource>, s: State)
    requires Distinct(rs) && bridge !in rs
    ensures var ord := Order(KeysIn(rs, s), None);
            var start := RoundUp(Get(s, bridge).base, Get(s, bridge).align);
            var (end, t) := SizeRun(io, bridge, rs, ord, |ord|, start, s);
            RoundUp(end, bridge.gran) >= RoundUp(Get(t, bridge).base, Get(t, bridge).align)
  {
    var keys := KeysIn(rs, s);
    var ord := Order(keys, None);
    OrderIsStableSort(keys);
    SizeRunClosed(io, bridge, rs, ord, |ord|, RoundUp(Get(s, bridge).base, Get(s, bridge).align), s);
    assert ord[..|ord|] == ord;
    WindowSizeNonNegative(io, Get(s, bridge).base, Get(s, bridge).align, bridge.gran, keys, ord);
  }

  // ----- the pass as a program

  /** `compute_resources`.  `dom` is any set of resources around the tree and `s` the state
      they are in; afterwards they are in the state `Compute` gives. */
  method ComputeResources(bus: Bus, bridge: Resource, f: Filter, ghost dom: set<Resource>, ghost s: State)
    requires WellFormed(bus, f) && bridge !in Footprint(bus, f)
    requires Footprint(bus, f) <= dom && bridge in dom && Holds(dom, s)
    modifies dom
    ensures Holds(dom, Compute(bus, bridge, f, s))
    decreases bus, 2
  {
    var base := RoundUp(bridge.base, bridge.align);
    ghost var t := ComputeWindows(bus, f, |Windows(bus, f)|, s);
    ComputeChildWindows(bus, f, dom, s);
    LevelOf(bus, f);
    ComputeWindowsOnlyChanges(bus, f, |Windows(bus, f)|, s);
    BehindWithin(bus, f, |Windows(bus, f)|);
    Unchanged(Behind(bus, f, |Windows(bus, f)|), s, t, bridge);
    hide WellFormed, Footprint, SizeLevel, OnlyChanges, BusResources, Windows;
    LayOutBus(bus, bridge, f, base, dom, t);
  }

  /** The first loop: the windows of the children are sized first. */
  method ComputeChildWindows(bus: Bus, f: Filter, ghost dom: set<Resource>, ghost s: State)
    requires WellFormed(bus, f)
    requires Footprint(bus, f) <= dom && Holds(dom, s)
    modifies dom
    ensures Holds(dom, ComputeWindows(bus, f, |Windows(bus, f)|, s))
    decreases bus, 1
  {
    hide WellFormed, Footprint, Compute, Holds, DeviceWindows;
    ghost var k: nat := 0;
    for i := 0 to |bus.children|
      invariant k <= |Windows(bus, f)| && Windows(bus, f)[k..] == ChildrenWindows(bus, i, f)
      invariant Holds(dom, ComputeWindows(bus, f, k, s))
    {
      if bus.children[i].links == [] {
        NoLinksNoWindows(bus.children[i], 0, f);
        continue;
      }
      k := ComputeDeviceWindows(bus, i, f, k, dom, s);
    }
  }

  /** The windows of one device; `k` counts the windows of the bus met so far. */
  method ComputeDeviceWindows(bus: Bus, i: nat, f: Filter, ghost k0: nat, ghost dom: set<Resource>, ghost s: State)
    returns (ghost k: nat)
    requires WellFormed(bus, f) && i < |bus.children| && bus.children[i].links != []
    requires k0 <= |Windows(bus, f)| && Windows(bus, f)[k0..] == ChildrenWindows(bus, i, f)
    requires Footprint(bus, f) <= dom && Holds(dom, ComputeWindows(bus, f, k0, s))
    modifies dom
    ensures k <= |Windows(bus, f)| && Windows(bus, f)[k..] == ChildrenWindows(bus, i + 1, f)
    ensures Holds(dom, ComputeWindows(bus, f, k, s))
    decreases bus, 0
  {
    hide WellFormed, Footprint, Compute, Holds, Windows, ChildrenWindows, DeviceWindows, IsWindow;
    var dev := bus.children[i];
    k := k0;
    DeviceFirst(bus, i, f);
    for j := 0 to |dev.resources|
      invariant k <= |Windows(bus, f)|
      invariant Windows(bus, f)[k..] == DeviceWindows(dev, j, f) + ChildrenWindows(bus, i + 1, f)
      invariant Holds(dom, ComputeWindows(bus, f, k, s))
    {
      var childBridge := dev.resources[j];
      if !IsWindow(childBridge, f) {
        NoWindow(dev, j, f);
        continue;
      }
      var link := FindLink(dev.links, LinkOfIndex(childBridge.index));
      NextWindow(bus, f, i, j, k);
      ComputeResources(dev.links[link.value], childBridge, SubFilter(f, childBridge), dom,
                       ComputeWindows(bus, f, k, s));
      k := k + 1;
    }
  }

  /** The second loop, and the size of the bridge that follows from it. */
  method LayOutBus(bus: Bus, bridge: Resource, f: Filter, start: nat, ghost dom: set<Resource>, ghost s: State)
    requires Distinct(BusResources(bus, f)) && bridge !in BusResources(bus, f)
    requires ToSet(BusResources(bus, f)) <= dom && bridge in dom && Holds(dom, s)
    requires start == RoundUp(bridge.base, bridge.align)
    modifies dom
    ensures Holds(dom, SizeLevel(bus, bridge, f, start, s))
  {
    hide SizeRun, RoundTo, BusResources, Order;
    LevelSizeNonNegative(IsIo(f), bridge, BusResources(bus, f), s);
    var base := LayOutResources(bus, bridge, f, start, dom, s);
    bridge.size := RoundUp(base, bridge.gran) - RoundUp(bridge.base, bridge.align);
  }

  /** The second loop: the resources of this bus are laid out one by one, the bridge
      taking up their alignment and limit. */
  method LayOutResources(bus: Bus, bridge: Resource, f: Filter, start: nat, ghost dom: set<Resource>, ghost s: State)
    returns (base: nat)
    requires Distinct(BusResources(bus, f)) && bridge !in BusResources(bus, f)
    requires ToSet(BusResources(bus, f)) <= dom && bridge in dom && Holds(dom, s)
    modifies dom
    ensures var ord := Order(KeysIn(BusResources(bus, f), s), None);
            var (end, t) := SizeRun(IsIo(f), bridge, BusResources(bus, f), ord, |ord|, start, s);
            base == end && Holds(dom, t)
  {
    hide BusResources, Order, Best, SizeStep, Holds, Distinct, Keys, KeysIn, Precedes;
    ghost var rs := BusResources(bus, f);
    ghost var keys := KeysIn(rs, s);
    ghost var ord, m, l: Option<nat> := Order(keys, None), 0, None;
    base := start;
    var resource: Resource? := null;
    while true
      invariant AtIndex(rs, resource, l) && m <= |ord| && ord[m..] == Order(keys, l)
      invariant SizeRun(IsIo(f), bridge, rs, ord, m, start, s).0 == base
      invariant Holds(dom, SizeRun(IsIo(f), bridge, rs, ord, m, start, s).1)
      decreases |ord| - m, resource == null
    {
      ghost var t := SizeRun(IsIo(f), bridge, rs, ord, m, start, s).1;
      SizeRunKeys(IsIo(f), bridge, rs, ord, m, start, s);
      KeysHold(rs, dom, t);
      OrderStep(keys, ord, m, l);
      resource := LargestResource(bus, resource, f, l);
      l := Best(keys, l, |keys|);
      if resource == null {
        break;
      }
      assert resource in ToSet(rs);
      base := LayOutResource(bridge, resource, IsIo(f), base, dom, t);
      m := m + 1;
    }
  }

  /** One turn of the second loop. */
  method LayOutResource(bridge: Resource, resource: Resource, io: bool, base0: nat, ghost dom: set<Resource>,
                        ghost s: State)
    returns (base: nat)
    requires bridge != resource && bridge in dom && resource in dom && Holds(dom, s)
    modifies dom
    ensures base == SizeStep(io, bridge, resource, base0, s).0
    ensures Holds(dom, SizeStep(io, bridge, resource, base0, s).1)
  {
    hide RoundTo, Bump, Holds;
    base := base0;
    // An empty resource takes no room.
    var empty := PassUp(bridge, resource, dom, s);
    if !empty {
      ghost var a, b := Get(s, resource), Get(s, bridge);
      base := Occupy(resource, io, base, dom, s[bridge := Raised(b, a)]);
    }
  }

  /** The alignment and limit of a non-empty resource go up to the bridge. */
  method PassUp(bridge: Resource, resource: Resource, ghost dom: set<Resource>, ghost s: State) returns (empty: bool)
    requires bridge != resource && bridge in dom && resource in dom && Holds(dom, s)
    modifies dom
    ensures empty <==> Get(s, resource).size == 0
    ensures Holds(dom, if empty then s else s[bridge := Raised(Get(s, bridge), Get(s, resource))])
  {
    empty := resource.size == 0;
    if empty {
      return;
    }
    if resource.align > bridge.align {
      bridge.align := resource.align;
    }
    if bridge.limit > resource.limit {
      bridge.limit := resource.limit;
    }
  }

  /** The resource is laid out at the next free offset. */
  method Occupy(resource: Resource, io: bool, base0: nat, ghost dom: set<Resource>, ghost s: State) returns (base: nat)
    requires resource in dom && Holds(dom, s)
    modifies dom
    ensures var a := Get(s, resource);
            var at := PlaceAt(io, base0, a.align);
            base == at + a.size && Holds(dom, s[resource := a.(base := at)])
  {
    hide RoundTo, Bump;
    base := AvoidAliases(io, base0);
    base := RoundUp(base, resource.align);
    resource.base := base;
    base := base + resource.size;
  }

  lemma {:induction false} NoLinksNoWindows(dev: Device, j: nat, f: Filter)
    requires dev.links == [] && j <= |dev.resources|
    ensures DeviceWindows(dev, j, f) == []
    decreases |dev.resources| - j
  {
    if j < |dev.resources| { NoLinksNoWindows(dev, j + 1, f); }
  }

  /** The windows of device `i` come before those of the devices after it. */
  lemma DeviceFirst(bus: Bus, i: nat, f: Filter)
    requires i < |bus.children|
    ensures ChildrenWindows(bus, i, f) == DeviceWindows(bus.children[i], 0, f) + ChildrenWindows(bus, i + 1, f)
    ensures DeviceWindows(bus.children[i], |bus.children[i].resources|, f) + ChildrenWindows(bus, i + 1, f)
            == ChildrenWindows(bus, i + 1, f)
  {}

  lemma NoWindow(dev: Device, j: nat, f: Filter)
    requires j < |dev.resources| && !IsWindow(dev.resources[j], f)
    ensures DeviceWindows(dev, j, f) == DeviceWindows(dev, j + 1, f)
  {}

  /** The window met at device `i`, resource `j` is the next one of the list. */
  lemma NextWindow(bus: Bus, f: Filter, i: nat, j: nat, k: nat)
    requires WellFormed(bus, f)
    requires i < |bus.children| && bus.children[i].links != [] && j < |bus.children[i].resources|
    requires k <= |Windows(bus, f)|
    requires Windows(bus, f)[k..] == DeviceWindows(bus.children[i], j, f) + ChildrenWindows(bus, i + 1, f)
    requires IsWindow(bus.children[i].resources[j], f)
    ensures var dev := bus.children[i];
            var r := dev.resources[j];
            var link := FindLink(dev.links, LinkOfIndex(r.index));
            && link.Some? && k < |Windows(bus, f)|
            && Windows(bus, f)[k] == Window(r, dev.links[link.value])
            && Windows(bus, f)[k + 1..] == DeviceWindows(dev, j + 1, f) + ChildrenWindows(bus, i + 1, f)
            && WellFormed(dev.links[link.value], SubFilter(f, r))
            && r !in Footprint(dev.links[link.value], SubFilter(f, r))
            && r in Footprint(bus, f) && Footprint(dev.links[link.value], SubFilter(f, r)) <= Footprint(bus, f)
  {
    var dev := bus.children[i];
    var r := dev.resources[j];
    var ws := Windows(bus, f);
    var link := FindLink(dev.links, LinkOfIndex(r.index));
    FootprintContains(bus, f);
    SplitHead(ws, k, Window(r, dev.links[link.value]), DeviceWindows(dev, j + 1, f), ChildrenWindows(bus, i + 1, f));
  }
}
