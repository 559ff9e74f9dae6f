/** The device tree as the resource allocator sees it: buses, devices and resources.

    The shape of the tree does not change while resources are allocated, so buses and
    devices are values; the resources are objects, updated in place.  The flag word of a
    resource is modelled bit by bit: the bits the allocator only reads are constants. */
module ResourceTree {
  import opened Wrappers
  import opened ResourceOrder

  /** The type bits of the flag word (`IORESOURCE_TYPE_MASK`). */
  datatype ResourceKind = Unused | Io | Mem | Irq | Drq

  class Resource {
    const index: nat
    const kind: ResourceKind
    const prefetch: bool
    const bridge: bool
    const subtractive: bool
    const fixed: bool
    const gran: nat
    var base: nat
    var size: nat
    var limit: nat
    var align: nat
    var isAssigned: bool
    var isStored: bool

    constructor (index: nat, kind: ResourceKind, prefetch: bool, bridge: bool, subtractive: bool, fixed: bool,
                 gran: nat, base: nat, size: nat, limit: nat, align: nat)
      ensures this.index == index && this.kind == kind && this.prefetch == prefetch && this.bridge == bridge
      ensures this.subtractive == subtractive && this.fixed == fixed && this.gran == gran
      ensures this.base == base && this.size == size && this.limit == limit && this.align == align
      ensures !isAssigned && !isStored
    {
      this.index, this.kind, this.prefetch, this.bridge := index, kind, prefetch, bridge;
      this.subtractive, this.fixed, this.gran := subtractive, fixed, gran;
      this.base, this.size, this.limit, this.align := base, size, limit, align;
      isAssigned, isStored := false, false;
    }
  }

  datatype Bus = Bus(linkNum: nat, children: seq<Device>)
  datatype Device = Device(enabled: bool, resources: seq<Resource>, links: seq<Bus>)

  /** A type mask with the value it must give: the kind, and, once below a bridge, the
      prefetch bit. */
  datatype Filter = Filter(kind: ResourceKind, prefetch: Option<bool>)

  predicate Matches(r: Resource, f: Filter) {
    r.kind == f.kind && (f.prefetch.Some? ==> r.prefetch == f.prefetch.value)
  }

  /** `type_mask | PREFETCH` and `type | (flags & PREFETCH)` for the bus behind a window. */
  function SubFilter(f: Filter, window: Resource): Filter {
    Filter(f.kind, Some(window.prefetch))
  }

  function LinkOfIndex(index: nat): nat { index / 0x10000 % 0x10 }

  function SubtractiveLinkOfIndex(index: nat): nat { index % 0x100 }

  /** The position of the first link with this number. */
  function FindLink(links: seq<Bus>, linkNum: nat): (r: Option<nat>)
    ensures r.Some? ==> r.value < |links| && links[r.value].linkNum == linkNum
    ensures r.None? ==> forall k | 0 <= k < |links| :: links[k].linkNum != linkNum
  {
    if links == [] then None
    else if links[0].linkNum == linkNum then Some(0)
    else match FindLink(links[1..], linkNum)
      case None => None
      case Some(k) => Some(k + 1)
  }

  // ----- the resources met by search_bus_resources, in traversal order

  function BusResources(bus: Bus, f: Filter): seq<Resource>
    decreases bus
  {
    ChildrenResources(bus, 0, f)
  }

  function ChildrenResources(bus: Bus, i: nat, f: Filter): seq<Resource>
    requires i <= |bus.children|
    decreases bus, |bus.children| - i
  {
    if i == |bus.children| then []
    else
      (if bus.children[i].enabled then DeviceResources(bus.children[i], 0, f) else [])
      + ChildrenResources(bus, i + 1, f)
  }

  /** A subtractive resource stands for the resources of the bus behind it; if that bus
      is missing, the rest of the device's list is skipped. */
  function DeviceResources(dev: Device, j: nat, f: Filter): seq<Resource>
    requires j <= |dev.resources|
    decreases dev, |dev.resources| - j
  {
    if j == |dev.resources| then []
    else
      var r := dev.resources[j];
      if !Matches(r, f) then DeviceResources(dev, j + 1, f)
      else if r.subtractive then
        match FindLink(dev.links, SubtractiveLinkOfIndex(r.index))
        case None => []
        case Some(k) => BusResources(dev.links[k], f) + DeviceResources(dev, j + 1, f)
      else [r] + DeviceResources(dev, j + 1, f)
  }

  // ----- the bridge windows of a bus, each with the bus behind it

  datatype Window = Window(res: Resource, link: Bus)

  predicate IsWindow(r: Resource, f: Filter) {
    r.bridge && Matches(r, f)
  }

  function ChildrenWindows(bus: Bus, i: nat, f: Filter): (ws: seq<Window>)
    requires i <= |bus.children|
    ensures forall k | 0 <= k < |ws| :: ws[k].link < bus && IsWindow(ws[k].res, f)
    decreases |bus.children| - i
  {
    if i == |bus.children| then []
    else DeviceWindows(bus.children[i], 0, f) + ChildrenWindows(bus, i + 1, f)
  }

  function DeviceWindows(dev: Device, j: nat, f: Filter): (ws: seq<Window>)
    requires j <= |dev.resources|
    ensures forall k | 0 <= k < |ws| :: ws[k].link < dev && IsWindow(ws[k].res, f)
    decreases |dev.resources| - j
  {
    if j == |dev.resources| then []
    else
      var r := dev.resources[j];
      var k := FindLink(dev.links, LinkOfIndex(r.index));
      (if IsWindow(r, f) && k.Some? then [Window(r, dev.links[k.value])] else [])
      + DeviceWindows(dev, j + 1, f)
  }

  function Windows(bus: Bus, f: Filter): (ws: seq<Window>)
    ensures forall k | 0 <= k < |ws| :: ws[k].link < bus && IsWindow(ws[k].res, f)
  {
    ChildrenWindows(bus, 0, f)
  }

  /** Every window of a device with links has the link its index names: without it the
      allocator would follow a null pointer. */
  predicate LinksFound(bus: Bus, f: Filter) {
    forall i, j | 0 <= i < |bus.children| && 0 <= j < |bus.children[i].resources| ::
      IsWindow(bus.children[i].resources[j], f) && bus.children[i].links != [] ==>
        FindLink(bus.children[i].links, LinkOfIndex(bus.children[i].resources[j].index)).Some?
  }

  // ----- footprints

  ghost function ToSet(rs: seq<Resource>): set<Resource> {
    set r | r in rs
  }

  /** The resources one call touches before it recurses. */
  ghost function Level(bus: Bus, f: Filter): set<Resource> {
    ToSet(BusResources(bus, f)) + (set w | w in Windows(bus, f) :: w.res)
  }

  /** All resources a call on `bus` may touch. */
  ghost function Footprint(bus: Bus, f: Filter): set<Resource>
    decreases bus
  {
    var ws := Windows(bus, f);
    Level(bus, f) + set i, r | 0 <= i < |ws| && r in Footprint(ws[i].link, SubFilter(f, ws[i].res)) :: r
  }

  ghost predicate Distinct<T>(s: seq<T>) {
    forall i, j | 0 <= i < j < |s| :: s[i] != s[j]
  }

  /** No resource is reached twice, and every window leads to a bus. */
  ghost predicate WellFormed(bus: Bus, f: Filter)
    decreases bus
  {
    var ws := Windows(bus, f);
    && LinksFound(bus, f)
    && Distinct(BusResources(bus, f))
    && (forall i, j | 0 <= i < j < |ws| :: ws[i].res != ws[j].res)
    && (forall i | 0 <= i < |ws| :: Footprint(ws[i].link, SubFilter(f, ws[i].res)) !! Level(bus, f))
    && (forall i, j | 0 <= i < j < |ws| ::
          Footprint(ws[i].link, SubFilter(f, ws[i].res)) !! Footprint(ws[j].link, SubFilter(f, ws[j].res)))
    && (forall i | 0 <= i < |ws| :: WellFormed(ws[i].link, SubFilter(f, ws[i].res)))
  }

  lemma FootprintContains(bus: Bus, f: Filter)
    ensures Level(bus, f) <= Footprint(bus, f)
    ensures var ws := Windows(bus, f);
            forall i | 0 <= i < |ws| ::
              ws[i].res in Level(bus, f) && Footprint(ws[i].link, SubFilter(f, ws[i].res)) <= Footprint(bus, f)
  {
    var ws := Windows(bus, f);
    forall i | 0 <= i < |ws|
      ensures ws[i].res in Level(bus, f) && Footprint(ws[i].link, SubFilter(f, ws[i].res)) <= Footprint(bus, f)
    {
      assert ws[i] in ws;
    }
  }

  /** The first `k` windows and everything behind them. */
  ghost function Behind(bus: Bus, f: Filter, k: nat): set<Resource>
    requires k <= |Windows(bus, f)|
  {
    if k == 0 then {}
    else
      var w := Windows(bus, f)[k - 1];
      Behind(bus, f, k - 1) + (Footprint(w.link, SubFilter(f, w.res)) + {w.res})
  }

  lemma {:induction false} BehindWithin(bus: Bus, f: Filter, k: nat)
    requires k <= |Windows(bus, f)|
    ensures Behind(bus, f, k) <= Footprint(bus, f)
  {
    hide Footprint, IsWindow, ChildrenWindows;
    if k > 0 {
      BehindWithin(bus, f, k - 1);
      WindowWithin(bus, f, k - 1);
    }
  }

  /** What lies behind the first `k` windows is apart from the windows still to come and
      from everything behind those. */
  lemma {:induction false} BehindApart(bus: Bus, f: Filter, k: nat, i: nat)
    requires WellFormed(bus, f) && k <= i < |Windows(bus, f)|
    ensures var w := Windows(bus, f)[i];
            (Footprint(w.link, SubFilter(f, w.res)) + {w.res}) !! Behind(bus, f, k)
  {
    hide Footprint, WellFormed, IsWindow, ChildrenWindows;
    if k > 0 {
      BehindApart(bus, f, k - 1, i);
      WindowsApart(bus, f, k - 1, i);
    }
  }

  lemma WindowWithin(bus: Bus, f: Filter, k: nat)
    requires k < |Windows(bus, f)|
    ensures var w := Windows(bus, f)[k];
            Footprint(w.link, SubFilter(f, w.res)) + {w.res} <= Footprint(bus, f)
  {
    FootprintContains(bus, f);
  }

  lemma WindowsApart(bus: Bus, f: Filter, i: nat, j: nat)
    requires WellFormed(bus, f) && i < |Windows(bus, f)| && j < |Windows(bus, f)| && i != j
    ensures var v, w := Windows(bus, f)[i], Windows(bus, f)[j];
            (Footprint(v.link, SubFilter(f, v.res)) + {v.res}) !! (Footprint(w.link, SubFilter(f, w.res)) + {w.res})
  {
    hide BusResources, Windows, Distinct, LinksFound, Level;
    FootprintContains(bus, f);
  }

  /** No resource of the bus itself lies behind a window, and no window behind itself. */
  lemma LevelApart(bus: Bus, f: Filter, i: nat)
    requires WellFormed(bus, f) && i < |Windows(bus, f)|
    ensures var w := Windows(bus, f)[i];
            && WellFormed(w.link, SubFilter(f, w.res))
            && w.res !in Footprint(w.link, SubFilter(f, w.res))
            && (forall r | r in BusResources(bus, f) :: r !in Footprint(w.link, SubFilter(f, w.res)))
            && Footprint(w.link, SubFilter(f, w.res)) <= Footprint(bus, f) && w.res in Footprint(bus, f)
  {
    FootprintContains(bus, f);
    assert forall r | r in BusResources(bus, f) :: r in ToSet(BusResources(bus, f));
  }

  lemma SplitHead<T>(ws: seq<T>, k: nat, w: T, a: seq<T>, b: seq<T>)
    requires k <= |ws| && ws[k..] == ([w] + a) + b
    ensures k < |ws| && ws[k] == w && ws[k + 1..] == a + b
  {
    assert ws[k] == ws[k..][0] == w;
    assert ws[k + 1..] == ws[k..][1..] == a + b;
  }

  lemma LevelWithin(bus: Bus, f: Filter)
    ensures forall r | r in BusResources(bus, f) :: r in Footprint(bus, f)
  {
    FootprintContains(bus, f);
    assert forall r | r in BusResources(bus, f) :: r in ToSet(BusResources(bus, f));
  }

  lemma LevelOf(bus: Bus, f: Filter)
    requires WellFormed(bus, f)
    ensures Distinct(BusResources(bus, f)) && ToSet(BusResources(bus, f)) <= Footprint(bus, f)
    ensures forall r | r in BusResources(bus, f) :: r in Footprint(bus, f)
  {
    FootprintContains(bus, f);
    assert forall r | r in BusResources(bus, f) :: r in ToSet(BusResources(bus, f));
  }

  // ----- what the iterator reads of a list of resources

  ghost function Keys(rs: seq<Resource>): (keys: seq<Key>)
    reads ToSet(rs)
    ensures |keys| == |rs|
    ensures forall i | 0 <= i < |rs| :: keys[i] == Key(rs[i].align, rs[i].size, rs[i].fixed)
  {
    seq(|rs|, i requires 0 <= i < |rs| reads ToSet(rs) => Key(rs[i].align, rs[i].size, rs[i].fixed))
  }
}
