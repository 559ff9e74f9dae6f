/** Which resources and windows the two walks of the allocator take, said of the fields of
    the tree alone: of the flag word the walks look at the kind, and below a bridge at the
    prefetch bit as well. */
module ResourceWalk {
  import opened Wrappers
  import opened ResourceTree

  /** No resource of the enabled devices on the bus stands for another bus. */
  predicate NoSubtractive(bus: Bus) {
    forall i, j | 0 <= i < |bus.children| && 0 <= j < |bus.children[i].resources| && bus.children[i].enabled ::
      !bus.children[i].resources[j].subtractive
  }

  /** An enabled device on the bus has this resource. */
  predicate Listed(bus: Bus, r: Resource) {
    exists i :: 0 <= i < |bus.children| && bus.children[i].enabled && r in bus.children[i].resources
  }

  /** No earlier resource of the device breaks the walk off: each subtractive one that the
      walk would follow names a link that is there. */
  predicate Unbroken(dev: Device, from: nat, j: nat, f: Filter)
    requires j <= |dev.resources|
  {
    forall m | from <= m < j ::
      var q := dev.resources[m];
      q.subtractive && q.kind == f.kind && (f.prefetch == None || f.prefetch == Some(q.prefetch)) ==>
        exists k :: 0 <= k < |dev.links| && dev.links[k].linkNum == q.index % 0x100
  }

  /** The walk comes to `r`: an enabled device lists it, of the right kind, or lists a
      subtractive resource of the right kind whose bus leads to it. */
  ghost predicate LeadsTo(bus: Bus, f: Filter, r: Resource)
    decreases bus
  {
    exists i :: 0 <= i < |bus.children| && bus.children[i].enabled && DeviceLeadsTo(bus.children[i], 0, f, r)
  }

  /** The same for the resources of one device from `from` on. */
  ghost predicate DeviceLeadsTo(dev: Device, from: nat, f: Filter, r: Resource)
    decreases dev
  {
    exists j :: from <= j < |dev.resources| && Unbroken(dev, from, j, f) && ResourceLeadsTo(dev, j, f, r)
  }

  ghost predicate ResourceLeadsTo(dev: Device, j: nat, f: Filter, r: Resource)
    requires j < |dev.resources|
    decreases dev, 0
  {
    var q := dev.resources[j];
    && q.kind == f.kind && (f.prefetch == None || f.prefetch == Some(q.prefetch))
    && if q.subtractive then
         var k := FindLink(dev.links, q.index % 0x100);
         k.Some? && LeadsTo(dev.links[k.value], f, r)
       else q == r
  }

  // ----- the resources met by search_bus_resources

  lemma {:induction false} DeviceTaken(dev: Device, from: nat, f: Filter, r: Resource)
    requires from <= |dev.resources|
    ensures r in DeviceResources(dev, from, f) <==> DeviceLeadsTo(dev, from, f, r)
    decreases dev, |dev.resources| - from
  {
    hide BusResources, LeadsTo;
    if from < |dev.resources| {
      DeviceTaken(dev, from + 1, f, r);
      LaterLeads(dev, from, f, r);
      var q := dev.resources[from];
      if q.subtractive {
        var k := FindLink(dev.links, q.index % 0x100);
        if k.Some? { BusTaken(dev.links[k.value], f, r); }
      }
    }
  }

  /** What the first of these resources adds. */
  lemma LaterLeads(dev: Device, from: nat, f: Filter, r: Resource)
    requires from < |dev.resources|
    ensures DeviceLeadsTo(dev, from, f, r) <==>
              ResourceLeadsTo(dev, from, f, r)
                || (Unbroken(dev, from, from + 1, f) && DeviceLeadsTo(dev, from + 1, f, r))
  {
    hide ResourceLeadsTo;
    if DeviceLeadsTo(dev, from, f, r) {
      var j :| from <= j < |dev.resources| && Unbroken(dev, from, j, f) && ResourceLeadsTo(dev, j, f, r);
      assert j > from ==> Unbroken(dev, from, from + 1, f) && Unbroken(dev, from + 1, j, f);
    }
    if ResourceLeadsTo(dev, from, f, r) { assert Unbroken(dev, from, from, f); }
    var next := from + 1;
    if Unbroken(dev, from, next, f) && DeviceLeadsTo(dev, next, f, r) {
      var j :| next <= j < |dev.resources| && Unbroken(dev, next, j, f) && ResourceLeadsTo(dev, j, f, r);
      assert Unbroken(dev, from, j, f);
    }
  }

  lemma {:induction false} ChildrenTaken(bus: Bus, i: nat, f: Filter, r: Resource)
    requires i <= |bus.children|
    ensures r in ChildrenResources(bus, i, f) <==>
              exists k :: i <= k < |bus.children| && bus.children[k].enabled && DeviceLeadsTo(bus.children[k], 0, f, r)
    decreases bus, |bus.children| - i
  {
    hide DeviceResources, DeviceLeadsTo;
    if i < |bus.children| {
      DeviceTaken(bus.children[i], 0, f, r);
      ChildrenTaken(bus, i + 1, f, r);
    }
  }

  /** The walk takes exactly the resources that enabled devices list and that are of the
      kind, subtractive ones replaced by what lies behind them, up to a broken link. */
  lemma {:induction false} BusTaken(bus: Bus, f: Filter, r: Resource)
    ensures r in BusResources(bus, f) <==> LeadsTo(bus, f, r)
    decreases bus, |bus.children| + 1
  {
    hide DeviceLeadsTo;
    ChildrenTaken(bus, 0, f, r);
  }

  /** Without subtractive resources: a resource is taken exactly if an enabled device on the
      bus lists it and it is of the kind, and of the prefetch bit if that is asked for. */
  lemma ResourcesTaken(bus: Bus, f: Filter, r: Resource)
    requires NoSubtractive(bus)
    ensures r in BusResources(bus, f) <==>
              Listed(bus, r) && r.kind == f.kind && (f.prefetch == None || f.prefetch == Some(r.prefetch))
  {
    hide BusResources, DeviceLeadsTo;
    BusTaken(bus, f, r);
    forall i | 0 <= i < |bus.children| && bus.children[i].enabled
      ensures DeviceLeadsTo(bus.children[i], 0, f, r) <==>
                && r in bus.children[i].resources
                && r.kind == f.kind && (f.prefetch == None || f.prefetch == Some(r.prefetch))
    {
      PlainDevice(bus.children[i], f, r);
    }
  }

  lemma PlainDevice(dev: Device, f: Filter, r: Resource)
    requires forall j | 0 <= j < |dev.resources| :: !dev.resources[j].subtractive
    ensures DeviceLeadsTo(dev, 0, f, r) <==>
              r in dev.resources && r.kind == f.kind && (f.prefetch == None || f.prefetch == Some(r.prefetch))
  {
    hide LeadsTo;
    forall j | 0 <= j < |dev.resources|
      ensures Unbroken(dev, 0, j, f)
      ensures ResourceLeadsTo(dev, j, f, r) <==>
                dev.resources[j] == r && r.kind == f.kind && (f.prefetch == None || f.prefetch == Some(r.prefetch))
    {}
  }

  // ----- the windows

  /** A device lists the window, enabled or not, and `link` is the first of its buses with
      the number that the index of the window carries. */
  predicate LeadsBehind(bus: Bus, w: Resource, link: Bus) {
    exists i, k :: 0 <= i < |bus.children| && w in bus.children[i].resources && 0 <= k < |bus.children[i].links|
                   && bus.children[i].links[k] == link && link.linkNum == w.index / 0x10000 % 0x10
                   && forall m | 0 <= m < k :: bus.children[i].links[m].linkNum != link.linkNum
  }

  lemma {:induction false} FirstLink(links: seq<Bus>, linkNum: nat)
    ensures match FindLink(links, linkNum)
            case None => true
            case Some(k) => forall m | 0 <= m < k :: links[m].linkNum != linkNum
  {
    if links != [] && links[0].linkNum != linkNum { FirstLink(links[1..], linkNum); }
  }

  lemma {:induction false} DeviceWindowsTaken(dev: Device, j: nat, f: Filter, v: Window)
    requires j <= |dev.resources|
    ensures v in DeviceWindows(dev, j, f) <==>
              && v.res in dev.resources[j..] && v.res.bridge && v.res.kind == f.kind
              && (f.prefetch == None || f.prefetch == Some(v.res.prefetch))
              && var k := FindLink(dev.links, v.res.index / 0x10000 % 0x10); k.Some? && v.link == dev.links[k.value]
    decreases |dev.resources| - j
  {
    if j < |dev.resources| {
      DeviceWindowsTaken(dev, j + 1, f, v);
      assert dev.resources[j..] == [dev.resources[j]] + dev.resources[j + 1..];
    }
  }

  lemma {:induction false} ChildrenWindowsTaken(bus: Bus, i: nat, f: Filter, v: Window)
    requires i <= |bus.children|
    ensures v in ChildrenWindows(bus, i, f) <==>
              exists k :: i <= k < |bus.children| && v in DeviceWindows(bus.children[k], 0, f)
    decreases |bus.children| - i
  {
    hide DeviceWindows;
    if i < |bus.children| { ChildrenWindowsTaken(bus, i + 1, f, v); }
  }

  /** A window is taken exactly if it is a bridge window of the kind, and of the prefetch bit
      if that is asked for, and leads to the bus behind it. */
  lemma WindowsTaken(bus: Bus, f: Filter, v: Window)
    ensures v in Windows(bus, f) <==>
              && LeadsBehind(bus, v.res, v.link) && v.res.bridge && v.res.kind == f.kind
              && (f.prefetch == None || f.prefetch == Some(v.res.prefetch))
  {
    hide DeviceWindows, ChildrenWindows;
    ChildrenWindowsTaken(bus, 0, f, v);
    forall i | 0 <= i < |bus.children| ensures
      v in DeviceWindows(bus.children[i], 0, f) <==>
        && v.res in bus.children[i].resources && v.res.bridge && v.res.kind == f.kind
        && (f.prefetch == None || f.prefetch == Some(v.res.prefetch))
        && exists k :: 0 <= k < |bus.children[i].links| && bus.children[i].links[k] == v.link
                       && v.link.linkNum == v.res.index / 0x10000 % 0x10
                       && forall m | 0 <= m < k :: bus.children[i].links[m].linkNum != v.link.linkNum
    {
      var dev := bus.children[i];
      DeviceWindowsTaken(dev, 0, f, v);
      FirstLink(dev.links, v.res.index / 0x10000 % 0x10);
      assert dev.resources[0..] == dev.resources;
    }
  }

  /** Every resource of the kind behind a bridge is on the level of the window with its own
      prefetch bit, and of no other: with a window of each sort it is in exactly one. */
  lemma SplitByPrefetch(link: Bus, f: Filter, memory: Resource, prefetchable: Resource, r: Resource)
    requires NoSubtractive(link) && Listed(link, r) && r.kind == f.kind
    requires !memory.prefetch && prefetchable.prefetch
    ensures r in BusResources(link, SubFilter(f, prefetchable)) <==> r.prefetch
    ensures r in BusResources(link, SubFilter(f, memory)) <==> !r.prefetch
  {
    hide BusResources, NoSubtractive, Listed;
    ResourcesTaken(link, SubFilter(f, prefetchable), r);
    ResourcesTaken(link, SubFilter(f, memory), r);
  }

  /** The indices with which windows and subtractive resources name their links. */
  lemma IndicesNameLinks(idx: nat, link: nat)
    ensures idx < 0x10000 && link < 0x10 ==> LinkOfIndex(link * 0x10000 + idx) == link
    ensures link < 0x100 ==> SubtractiveLinkOfIndex(0x1000_0000 + idx * 0x100 + link) == link
  {}
}
