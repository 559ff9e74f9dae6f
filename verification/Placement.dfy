/** What a run of the allocation pass without a misfit guarantees, at every depth. */
module Placement {
  import opened Wrappers
  import opened PowersOfTwo
  import opened ResourceOrder
  import opened ResourceTree
  import opened BusLayout
  import opened AllocatorState
  import opened AllocationPass

  predicate Apart(a: Attr, b: Attr) {
    a.base + a.size <= b.base || b.base + b.size <= a.base
  }

  /** The non-empty resources of one bus are assigned, aligned, within [lo, hi] and
      apart from each other, and the limit of each is its last address. */
  ghost predicate BusContained(bus: Bus, f: Filter, lo: nat, hi: nat, s: State) {
    var rs := BusResources(bus, f);
    && (forall r | r in rs && !r.fixed && Get(s, r).size > 0 ::
          var a := Get(s, r);
          a.isAssigned && Aligned(a.base, a.align) && lo <= a.base && a.limit == a.base + a.size - 1 <= hi)
    && (forall q, r | && q in rs && r in rs && q != r && !q.fixed && !r.fixed
                      && Get(s, q).size > 0 && Get(s, r).size > 0 ::
          Apart(Get(s, q), Get(s, r)))
  }

  /** The same at every depth: what lies behind a window is inside that window. */
  ghost predicate Contained(bus: Bus, f: Filter, lo: nat, hi: nat, s: State)
    decreases bus
  {
    BusContained(bus, f, lo, hi, s) && ContainedUpTo(bus, f, |Windows(bus, f)|, s)
  }

  ghost predicate ContainedUpTo(bus: Bus, f: Filter, k: nat, s: State)
    requires k <= |Windows(bus, f)|
    decreases bus, 0
  {
    var ws := Windows(bus, f);
    forall i | 0 <= i < k ::
      Contained(ws[i].link, SubFilter(f, ws[i].res), Get(s, ws[i].res).base, Get(s, ws[i].res).limit, s)
  }

  // ----- one bus

  /** Where the `j`-th resource visited lands when everything fits. */
  lemma OutcomeOf(bus: Bus, bridge: Resource, f: Filter, s: State, j: nat)
    requires Distinct(BusResources(bus, f)) && bridge !in BusResources(bus, f) && BusFits(bus, bridge, f, s)
    requires j < |Order(KeysIn(BusResources(bus, f), s), None)|
    ensures var rs := BusResources(bus, f);
            var keys, b := KeysIn(rs, s), Get(s, bridge);
            var ord := Order(keys, None);
            var a, c := Get(s, rs[ord[j]]), Get(AllocBus(bus, bridge, f, s), rs[ord[j]]);
            && c.size == a.size && c.align == a.align
            && (a.size > 0 ==>
                  && Placed(IsIo(f), b.base, b.limit, keys, LimitsIn(rs, s), ord, j)
                  && c.base == AddressOf(IsIo(f), b.base, b.limit, keys, LimitsIn(rs, s), ord, j)
                  && c.limit == c.base + c.size - 1 && c.isAssigned)
  {
    hide BusResources, Order, AllocBase, AllocBus, Precedes, PlaceAt, Distinct;
    AllocBusAt(bus, bridge, f, s, j);
  }

  lemma BusFitsContained(bus: Bus, bridge: Resource, f: Filter, s: State)
    requires Distinct(BusResources(bus, f)) && bridge !in BusResources(bus, f) && BusFits(bus, bridge, f, s)
    ensures BusContained(bus, f, Get(s, bridge).base, Get(s, bridge).limit, AllocBus(bus, bridge, f, s))
  {
    hide BusResources, Order, AllocBus, BusFits, Placed, AddressOf, Precedes, Pow2;
    var rs := BusResources(bus, f);
    var b, keys, limits, t := Get(s, bridge), KeysIn(rs, s), LimitsIn(rs, s), AllocBus(bus, bridge, f, s);
    var ord := Order(keys, None);
    forall r | r in rs && !r.fixed && Get(t, r).size > 0
      ensures var a := Get(t, r);
              a.isAssigned && Aligned(a.base, a.align) && b.base <= a.base && a.limit == a.base + a.size - 1 <= b.limit
    {
      var j := VisitOf(bus, f, s, r);
      OutcomeOf(bus, bridge, f, s, j);
      OneBusPlacement(IsIo(f), b.base, b.limit, keys, limits, ord, j, j);
    }
    forall q, r | q in rs && r in rs && q != r && !q.fixed && !r.fixed && Get(t, q).size > 0 && Get(t, r).size > 0
      ensures Apart(Get(t, q), Get(t, r))
    {
      var j := VisitOf(bus, f, s, q);
      var k := VisitOf(bus, f, s, r);
      OutcomeOf(bus, bridge, f, s, j);
      OutcomeOf(bus, bridge, f, s, k);
      OneBusPlacement(IsIo(f), b.base, b.limit, keys, limits, ord, j, k);
      OneBusPlacement(IsIo(f), b.base, b.limit, keys, limits, ord, k, j);
    }
  }

  // ----- the buses behind the windows change nothing of this

  /** On the window it is called for, the pass only sets the assigned bit. */
  lemma AllocateKeepsBridge(bus: Bus, bridge: Resource, f: Filter, s: State)
    requires WellFormed(bus, f) && bridge !in Footprint(bus, f)
    ensures Get(Allocate(bus, bridge, f, s), bridge) == Get(s, bridge).(isAssigned := true)
  {
    hide Footprint, WellFormed, BusResources, Order, AllocRun, OnlyChanges, AllocWindows;
    var rs := BusResources(bus, f);
    var ord := Order(KeysIn(rs, s), None);
    LevelOf(bus, f);
    AllocRunOnlyChanges(IsIo(f), Get(s, bridge).limit, rs, ord, |ord|, Get(s, bridge).base, s);
    var t := AllocRun(IsIo(f), Get(s, bridge).limit, rs, ord, |ord|, Get(s, bridge).base, s).1;
    Unchanged(ToSet(rs), s, t, bridge);
    var n := |Windows(bus, f)|;
    AllocWindowsOnlyChanges(bus, f, n, AllocBus(bus, bridge, f, s));
    BehindWithin(bus, f, n);
    Unchanged(Behind(bus, f, n), AllocBus(bus, bridge, f, s), Allocate(bus, bridge, f, s), bridge);
  }

  predicate SameButAssigned(a: Attr, b: Attr) {
    b == a || b == a.(isAssigned := true)
  }

  lemma {:induction false} WindowsKeepLevel(bus: Bus, f: Filter, k: nat, s: State, r: Resource)
    requires WellFormed(bus, f) && k <= |Windows(bus, f)|
    requires r in BusResources(bus, f) || exists i :: 0 <= i < |Windows(bus, f)| && Windows(bus, f)[i].res == r
    ensures SameButAssigned(Get(s, r), Get(AllocWindows(bus, f, k, s), r))
    decreases k
  {
    hide Footprint, WellFormed, BusResources, Allocate, OnlyChanges, IsWindow, ChildrenWindows;
    if k > 0 {
      var w := Windows(bus, f)[k - 1];
      var t := AllocWindows(bus, f, k - 1, s);
      WindowsKeepLevel(bus, f, k - 1, s, r);
      LevelApart(bus, f, k - 1);
      if r == w.res {
        AllocateKeepsBridge(w.link, w.res, SubFilter(f, w.res), t);
      } else {
        AllocateOnlyChanges(w.link, w.res, SubFilter(f, w.res), t);
        if i :| 0 <= i < |Windows(bus, f)| && Windows(bus, f)[i].res == r {
          WindowsApart(bus, f, i, k - 1);
        }
        Unchanged(Footprint(w.link, SubFilter(f, w.res)) + {w.res}, t,
                  Allocate(w.link, w.res, SubFilter(f, w.res), t), r);
      }
    }
  }

  lemma BusContainedKept(bus: Bus, f: Filter, lo: nat, hi: nat, s: State, t: State)
    requires BusContained(bus, f, lo, hi, s)
    requires forall r | r in BusResources(bus, f) :: SameButAssigned(Get(s, r), Get(t, r))
    ensures BusContained(bus, f, lo, hi, t)
  {
    hide BusResources, Pow2;
  }

  lemma {:induction false} ContainedFrame(bus: Bus, f: Filter, lo: nat, hi: nat, s: State, t: State)
    requires Contained(bus, f, lo, hi, s) && Agree(Footprint(bus, f), s, t)
    ensures Contained(bus, f, lo, hi, t)
    decreases bus
  {
    hide Footprint, BusResources, BusContained;
    LevelWithin(bus, f);
    BusContainedKept(bus, f, lo, hi, s, t);
    var ws := Windows(bus, f);
    forall i | 0 <= i < |ws|
      ensures Contained(ws[i].link, SubFilter(f, ws[i].res), Get(t, ws[i].res).base, Get(t, ws[i].res).limit, t)
    {
      WindowWithin(bus, f, i);
      ContainedFrame(ws[i].link, SubFilter(f, ws[i].res), Get(s, ws[i].res).base, Get(s, ws[i].res).limit, s, t);
    }
  }

  /** If no resource takes the "didn't fit" branch, then afterwards every non-empty
      resource at every depth is aligned, inside its window and so inside every window
      above it, and apart from its siblings. */
  lemma {:induction false} AllFitContained(bus: Bus, bridge: Resource, f: Filter, s: State)
    requires WellFormed(bus, f) && bridge !in Footprint(bus, f) && AllFit(bus, bridge, f, s)
    ensures Contained(bus, f, Get(s, bridge).base, Get(s, bridge).limit, Allocate(bus, bridge, f, s))
    decreases bus, |Windows(bus, f)| + 1
  {
    hide Footprint, WellFormed, BusResources, BusContained, AllocBus, BusFits, WindowsFit, ContainedUpTo,
         AllocWindows;
    var n, t := |Windows(bus, f)|, AllocBus(bus, bridge, f, s);
    LevelOf(bus, f);
    BusFitsContained(bus, bridge, f, s);
    WindowsFitContained(bus, f, t, n);
    forall r | r in BusResources(bus, f) ensures SameButAssigned(Get(t, r), Get(AllocWindows(bus, f, n, t), r)) {
      WindowsKeepLevel(bus, f, n, t, r);
    }
    BusContainedKept(bus, f, Get(s, bridge).base, Get(s, bridge).limit, t, AllocWindows(bus, f, n, t));
  }

  lemma {:induction false} WindowsFitContained(bus: Bus, f: Filter, s: State, k: nat)
    requires WellFormed(bus, f) && k <= |Windows(bus, f)| && WindowsFit(bus, f, k, s)
    ensures ContainedUpTo(bus, f, k, AllocWindows(bus, f, k, s))
    decreases bus, k
  {
    hide Footprint, WellFormed, BusResources, Allocate, AllFit, Contained, IsWindow, ChildrenWindows;
    if k > 0 {
      var ws := Windows(bus, f);
      var w, sub := ws[k - 1], SubFilter(f, ws[k - 1].res);
      var t, u := AllocWindows(bus, f, k - 1, s), AllocWindows(bus, f, k, s);
      WindowsFitContained(bus, f, s, k - 1);
      LevelApart(bus, f, k - 1);
      AllFitContained(w.link, w.res, sub, t);
      AllocateKeepsBridge(w.link, w.res, sub, t);
      AllocateOnlyChanges(w.link, w.res, sub, t);
      forall i | 0 <= i < k - 1
        ensures Contained(ws[i].link, SubFilter(f, ws[i].res), Get(u, ws[i].res).base, Get(u, ws[i].res).limit, u)
      {
        WindowsApart(bus, f, i, k - 1);
        AgreeApart(Footprint(ws[i].link, SubFilter(f, ws[i].res)) + {ws[i].res}, Footprint(w.link, sub) + {w.res}, t,
                   u);
        ContainedFrame(ws[i].link, SubFilter(f, ws[i].res), Get(t, ws[i].res).base, Get(t, ws[i].res).limit, t, u);
      }
    }
  }
}
