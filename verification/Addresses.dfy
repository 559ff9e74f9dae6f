/** Which addresses the allocation pass gives out, in terms of the sizing pass alone: every
    resource ends up at the sum of its offset and of the offsets of the windows above it. */
module Addresses {
  import opened Wrappers
  import opened ResourceOrder
  import opened ResourceTree
  import opened BusLayout
  import opened AllocatorState
  import opened AllocationPass
  import opened TwoPass
  import opened Placement

  // ----- behind placed windows everything is contained

  /** `BusContained` on the bus and on every bus that placed windows lead to. */
  ghost predicate PlacedContained(bus: Bus, f: Filter, lo: nat, hi: nat, s: State)
    decreases bus
  {
    var ws := Windows(bus, f);
    && BusContained(bus, f, lo, hi, s)
    && forall i | 0 <= i < |ws| && !Stranded(bus, f, ws[i].res) ::
         PlacedContained(ws[i].link, SubFilter(f, ws[i].res), Get(s, ws[i].res).base, Get(s, ws[i].res).limit, s)
  }

  lemma {:induction false} PlacedContainedFrame(bus: Bus, f: Filter, lo: nat, hi: nat, s: State, t: State)
    requires PlacedContained(bus, f, lo, hi, s) && Agree(Footprint(bus, f), s, t)
    ensures PlacedContained(bus, f, lo, hi, t)
    decreases bus
  {
    hide Footprint, BusResources, BusContained, Stranded;
    LevelWithin(bus, f);
    BusContainedKept(bus, f, lo, hi, s, t);
    var ws := Windows(bus, f);
    forall i | 0 <= i < |ws| && !Stranded(bus, f, ws[i].res)
      ensures PlacedContained(ws[i].link, SubFilter(f, ws[i].res), Get(t, ws[i].res).base, Get(t, ws[i].res).limit, t)
    {
      WindowWithin(bus, f, i);
      PlacedContainedFrame(ws[i].link, SubFilter(f, ws[i].res), Get(s, ws[i].res).base, Get(s, ws[i].res).limit, s, t);
    }
  }

  lemma {:induction false} ContainedIsPlaced(bus: Bus, f: Filter, lo: nat, hi: nat, s: State)
    requires Contained(bus, f, lo, hi, s)
    ensures PlacedContained(bus, f, lo, hi, s)
    decreases bus
  {
    hide BusContained, Stranded;
    var ws := Windows(bus, f);
    forall i | 0 <= i < |ws| && !Stranded(bus, f, ws[i].res)
      ensures PlacedContained(ws[i].link, SubFilter(f, ws[i].res), Get(s, ws[i].res).base, Get(s, ws[i].res).limit, s)
    {
      ContainedIsPlaced(ws[i].link, SubFilter(f, ws[i].res), Get(s, ws[i].res).base, Get(s, ws[i].res).limit, s);
    }
  }

  /** The windows that follow leave window `i` and all behind it as its own turn left them. */
  lemma {:induction false} LaterWindows(bus: Bus, f: Filter, i: nat, k: nat, s: State)
    requires WellFormed(bus, f) && i < k <= |Windows(bus, f)|
    ensures var w := Windows(bus, f)[i];
            Agree(Footprint(w.link, SubFilter(f, w.res)) + {w.res}, AllocWindows(bus, f, i + 1, s),
                  AllocWindows(bus, f, k, s))
    decreases k
  {
    hide Footprint, WellFormed, Allocate, OnlyChanges, IsWindow, ChildrenWindows;
    if i + 1 < k {
      var v, w := Windows(bus, f)[i], Windows(bus, f)[k - 1];
      var t := AllocWindows(bus, f, k - 1, s);
      LaterWindows(bus, f, i, k - 1, s);
      AllocateOnlyChanges(w.link, w.res, SubFilter(f, w.res), t);
      WindowsApart(bus, f, i, k - 1);
      AgreeApart(Footprint(v.link, SubFilter(f, v.res)) + {v.res}, Footprint(w.link, SubFilter(f, w.res)) + {w.res},
                 t, AllocWindows(bus, f, k, s));
    }
  }

  /** The state in which it is the turn of window `i`. */
  ghost function Turn(bus: Bus, bridge: Resource, f: Filter, s: State, i: nat): State
    requires i < |Windows(bus, f)|
  {
    AllocWindows(bus, f, i, AllocBus(bus, bridge, f, s))
  }

  /** Behind window `i` the pass leaves what the call for that window leaves there. */
  lemma AfterTurn(bus: Bus, bridge: Resource, f: Filter, s: State, i: nat)
    requires WellFormed(bus, f) && bridge !in Footprint(bus, f) && i < |Windows(bus, f)|
    ensures var w := Windows(bus, f)[i];
            var u, t := Turn(bus, bridge, f, s, i), Allocate(bus, bridge, f, s);
            && Agree(Footprint(w.link, SubFilter(f, w.res)), Allocate(w.link, w.res, SubFilter(f, w.res), u), t)
            && Get(t, w.res) == Get(u, w.res).(isAssigned := true)
  {
    hide Footprint, WellFormed, BusResources, AllocBus, IsWindow, ChildrenWindows, OnlyChanges;
    var w := Windows(bus, f)[i];
    LevelApart(bus, f, i);
    LaterWindows(bus, f, i, |Windows(bus, f)|, AllocBus(bus, bridge, f, s));
    hide Allocate;
    AllocateKeepsBridge(w.link, w.res, SubFilter(f, w.res), Turn(bus, bridge, f, s, i));
    AllocateUnfold(bus, bridge, f, s, i);
  }

  lemma AllocateUnfold(bus: Bus, bridge: Resource, f: Filter, s: State, i: nat)
    requires i < |Windows(bus, f)|
    ensures var w := Windows(bus, f)[i];
            AllocWindows(bus, f, i + 1, AllocBus(bus, bridge, f, s))
            == Allocate(w.link, w.res, SubFilter(f, w.res), Turn(bus, bridge, f, s, i))
    ensures Allocate(bus, bridge, f, s) == AllocWindows(bus, f, |Windows(bus, f)|, AllocBus(bus, bridge, f, s))
  {
    hide AllocBus, Windows;
  }

  /** What the call for window `i` starts from. */
  lemma WindowCall(bus: Bus, bridge: Resource, f: Filter, s0: State, s: State, i: nat)
    requires WellFormed(bus, f) && bridge !in Footprint(bus, f) && i < |Windows(bus, f)|
    requires BusFits(bus, bridge, f, s) && TreeSized(bus, f, s0, s) && WindowsAtZero(bus, f, s0)
    ensures var w := Windows(bus, f)[i];
            var sub, u := SubFilter(f, w.res), Turn(bus, bridge, f, s, i);
            && WellFormed(w.link, sub) && w.res !in Footprint(w.link, sub)
            && Ready(w.link, w.res, sub, u) && TreeSized(w.link, sub, s0, u) && WindowsAtZero(w.link, sub, s0)
            && Agree(Footprint(w.link, sub), u, s) && Get(u, w.res) == Get(AllocBus(bus, bridge, f, s), w.res)
            && Extent(w.link, sub, u) == Extent(w.link, sub, s)
            && (Stranded(bus, f, w.res) ==> Get(u, w.res) == Get(s, w.res))
            && (!Stranded(bus, f, w.res) ==>
                ExtentFits(Get(u, w.res).base, Extent(w.link, sub, u), Get(u, w.res).limit))
  {
    hide Footprint, WellFormed, BusResources, TreeSized, WindowsAtZero, Extent, BusFits, AllocBus, AllocWindows,
         Ready, WindowSized, IsWindow, ChildrenWindows, Agree, Stranded;
    var w, sub := Windows(bus, f)[i], SubFilter(f, Windows(bus, f)[i].res);
    var u := Turn(bus, bridge, f, s, i);
    LevelApart(bus, f, i);
    TreeSizedAt(bus, f, s0, s, i);
    BehindUntouched(bus, bridge, f, s, i);
    WindowReady(bus, bridge, f, s0, s, i);
    AgreeSym(Footprint(w.link, sub), s, u);
    AgreeRefl(Footprint(w.link, sub), s0);
    TreeSizedFrame(w.link, sub, s0, s0, s, u);
  }

  lemma AgreeRefl(dom: set<Resource>, s: State)
    ensures Agree(dom, s, s)
  {}

  /** What one bus comes to in the final state: the windows behind only set status bits. */
  lemma LevelKept(bus: Bus, bridge: Resource, f: Filter, s: State)
    requires WellFormed(bus, f) && bridge !in Footprint(bus, f)
    ensures forall r | r in BusResources(bus, f) ::
              SameButAssigned(Get(AllocBus(bus, bridge, f, s), r), Get(Allocate(bus, bridge, f, s), r))
  {
    hide Footprint, WellFormed, BusResources, AllocBus, AllocWindows, SameButAssigned, Windows;
    forall r | r in BusResources(bus, f)
      ensures SameButAssigned(Get(AllocBus(bus, bridge, f, s), r), Get(Allocate(bus, bridge, f, s), r))
    {
      WindowsKeepLevel(bus, f, |Windows(bus, f)|, AllocBus(bus, bridge, f, s), r);
    }
  }

  /** If the bus fits its window, all that placed windows lead to is aligned, inside every
      window above it and apart from its siblings, whatever lies behind the others. */
  lemma {:induction false} FitsPlaced(bus: Bus, bridge: Resource, f: Filter, s0: State, s: State)
    requires WellFormed(bus, f) && bridge !in Footprint(bus, f)
    requires Ready(bus, bridge, f, s) && TreeSized(bus, f, s0, s) && WindowsAtZero(bus, f, s0)
    requires ExtentFits(Get(s, bridge).base, Extent(bus, f, s), Get(s, bridge).limit)
    ensures PlacedContained(bus, f, Get(s, bridge).base, Get(s, bridge).limit, Allocate(bus, bridge, f, s))
    decreases bus
  {
    hide Footprint, WellFormed, BusResources, TreeSized, WindowsAtZero, Extent, BusFits, AllocBus, Allocate, Ready,
         WindowSized, IsWindow, ChildrenWindows, Agree, Stranded, Turn, BusContained, ExtentFits, SameButAssigned;
    var t := Allocate(bus, bridge, f, s);
    BusFitsExactly(bus, bridge, f, s);
    LevelOf(bus, f);
    BusFitsContained(bus, bridge, f, s);
    LevelKept(bus, bridge, f, s);
    BusContainedKept(bus, f, Get(s, bridge).base, Get(s, bridge).limit, AllocBus(bus, bridge, f, s), t);
    var ws := Windows(bus, f);
    forall i | 0 <= i < |ws| && !Stranded(bus, f, ws[i].res)
      ensures PlacedContained(ws[i].link, SubFilter(f, ws[i].res), Get(t, ws[i].res).base, Get(t, ws[i].res).limit, t)
    {
      var w, sub, u := ws[i], SubFilter(f, ws[i].res), Turn(bus, bridge, f, s, i);
      WindowCall(bus, bridge, f, s0, s, i);
      AfterTurn(bus, bridge, f, s, i);
      FitsPlaced(w.link, w.res, sub, s0, u);
      PlacedContainedFrame(w.link, sub, Get(u, w.res).base, Get(u, w.res).limit, Allocate(w.link, w.res, sub, u), t);
    }
  }

  // ----- the addresses themselves

  /** The offset that the layout of the bus from 0 gives to one of its resources. */
  ghost function Offset(bus: Bus, f: Filter, s: State, r: Resource): nat {
    var rs := BusResources(bus, f);
    var keys := KeysIn(rs, s);
    var ord := Order(keys, None);
    if j :| 0 <= j < |ord| && rs[ord[j]] == r then OffsetOf(IsIo(f), 0, keys, ord, j) else 0
  }

  /** Address `x` is covered by a resource of the bus laid out at `base`. */
  ghost predicate LevelOver(bus: Bus, f: Filter, base: nat, s: State, x: int) {
    exists r :: r in BusResources(bus, f) && !r.fixed
                && base + Offset(bus, f, s, r) <= x < base + Offset(bus, f, s, r) + Get(s, r).size
  }

  /** The same, with what is behind each non-empty placed window at the offset of the
      window. */
  ghost predicate LaysOver(bus: Bus, f: Filter, base: nat, s: State, x: int)
    decreases bus
  {
    var ws := Windows(bus, f);
    || LevelOver(bus, f, base, s, x)
    || (exists i :: 0 <= i < |ws| && !Stranded(bus, f, ws[i].res) && Get(s, ws[i].res).size > 0
                    && LaysOver(ws[i].link, SubFilter(f, ws[i].res), base + Offset(bus, f, s, ws[i].res), s, x))
  }

  /** Address `x` has been given to a resource of the bus. */
  ghost predicate LevelUses(bus: Bus, f: Filter, s: State, x: int) {
    exists r :: r in BusResources(bus, f) && !r.fixed && Get(s, r).base <= x < Get(s, r).base + Get(s, r).size
  }

  /** Address `x` has been given to a resource of the bus or behind one of its non-empty
      placed windows. */
  ghost predicate Uses(bus: Bus, f: Filter, s: State, x: int)
    decreases bus
  {
    var ws := Windows(bus, f);
    || LevelUses(bus, f, s, x)
    || (exists i :: 0 <= i < |ws| && !Stranded(bus, f, ws[i].res) && Get(s, ws[i].res).size > 0
                    && Uses(ws[i].link, SubFilter(f, ws[i].res), s, x))
  }

  lemma {:induction false} UsesWithin(bus: Bus, f: Filter, lo: nat, hi: nat, s: State, x: int)
    requires PlacedContained(bus, f, lo, hi, s) && Uses(bus, f, s, x)
    ensures lo <= x <= hi
    decreases bus
  {
    hide BusResources, Stranded;
    var ws := Windows(bus, f);
    if !LevelUses(bus, f, s, x) {
      var i :| 0 <= i < |ws| && !Stranded(bus, f, ws[i].res) && Get(s, ws[i].res).size > 0
               && Uses(ws[i].link, SubFilter(f, ws[i].res), s, x);
      UsesWithin(ws[i].link, SubFilter(f, ws[i].res), Get(s, ws[i].res).base, Get(s, ws[i].res).limit, s, x);
      WindowInside(bus, f, lo, hi, s, i);
    }
  }

  lemma WindowInside(bus: Bus, f: Filter, lo: nat, hi: nat, s: State, i: nat)
    requires BusContained(bus, f, lo, hi, s) && i < |Windows(bus, f)|
    requires !Stranded(bus, f, Windows(bus, f)[i].res) && Get(s, Windows(bus, f)[i].res).size > 0
    ensures lo <= Get(s, Windows(bus, f)[i].res).base && Get(s, Windows(bus, f)[i].res).limit <= hi
  {
    hide BusResources, Windows;
  }

  lemma LevelUsesFrame(bus: Bus, f: Filter, s: State, t: State, x: int)
    requires Agree(Footprint(bus, f), s, t)
    ensures LevelUses(bus, f, s, x) <==> LevelUses(bus, f, t, x)
  {
    hide Footprint, BusResources;
    LevelWithin(bus, f);
  }

  lemma {:induction false} UsesFrame(bus: Bus, f: Filter, s: State, t: State, x: int)
    requires Agree(Footprint(bus, f), s, t)
    ensures Uses(bus, f, s, x) <==> Uses(bus, f, t, x)
    decreases bus
  {
    hide Footprint, BusResources, Stranded, LevelUses;
    LevelUsesFrame(bus, f, s, t, x);
    var ws := Windows(bus, f);
    forall i | 0 <= i < |ws|
      ensures Get(s, ws[i].res) == Get(t, ws[i].res)
      ensures Uses(ws[i].link, SubFilter(f, ws[i].res), s, x) <==> Uses(ws[i].link, SubFilter(f, ws[i].res), t, x)
    {
      WindowWithin(bus, f, i);
      UsesFrame(ws[i].link, SubFilter(f, ws[i].res), s, t, x);
    }
  }

  lemma OffsetFrame(bus: Bus, f: Filter, s: State, t: State)
    requires Agree(Footprint(bus, f), s, t)
    ensures forall r :: Offset(bus, f, s, r) == Offset(bus, f, t, r)
  {
    hide Footprint, BusResources, Order, OffsetOf;
    LevelWithin(bus, f);
    SameKeys(BusResources(bus, f), s, t);
  }

  lemma LevelOverFrame(bus: Bus, f: Filter, base: nat, s: State, t: State, x: int)
    requires Agree(Footprint(bus, f), s, t)
    ensures LevelOver(bus, f, base, s, x) <==> LevelOver(bus, f, base, t, x)
  {
    hide Footprint, BusResources, Offset;
    LevelWithin(bus, f);
    OffsetFrame(bus, f, s, t);
  }

  lemma {:induction false} LaysOverFrame(bus: Bus, f: Filter, base: nat, s: State, t: State, x: int)
    requires Agree(Footprint(bus, f), s, t)
    ensures LaysOver(bus, f, base, s, x) <==> LaysOver(bus, f, base, t, x)
    decreases bus
  {
    hide Footprint, BusResources, Stranded, Offset, LevelOver;
    LevelOverFrame(bus, f, base, s, t, x);
    OffsetFrame(bus, f, s, t);
    var ws := Windows(bus, f);
    forall i | 0 <= i < |ws|
      ensures Get(s, ws[i].res) == Get(t, ws[i].res)
      ensures var at := base + Offset(bus, f, s, ws[i].res);
              LaysOver(ws[i].link, SubFilter(f, ws[i].res), at, s, x) <==>
                LaysOver(ws[i].link, SubFilter(f, ws[i].res), at, t, x)
    {
      WindowWithin(bus, f, i);
      LaysOverFrame(ws[i].link, SubFilter(f, ws[i].res), base + Offset(bus, f, s, ws[i].res), s, t, x);
    }
  }

  /** On a ready bus that fits, every non-empty resource lands at the base of the window
      plus its offset. */
  lemma LandsAtOffset(bus: Bus, bridge: Resource, f: Filter, s: State, r: Resource)
    requires Distinct(BusResources(bus, f)) && bridge !in BusResources(bus, f)
    requires Ready(bus, bridge, f, s) && BusFits(bus, bridge, f, s)
    requires r in BusResources(bus, f) && !r.fixed
    ensures var c := Get(AllocBus(bus, bridge, f, s), r);
            c.size == Get(s, r).size && (c.size > 0 ==> c.base == Get(s, bridge).base + Offset(bus, f, s, r))
  {
    hide BusResources, Order, AllocBase, AllocBus, BusFits, Placed, AddressOf, After, OffsetOf, WindowAligned;
    var rs, b := BusResources(bus, f), Get(s, bridge);
    var keys, limits := KeysIn(rs, s), LimitsIn(rs, s);
    var ord := Order(keys, None);
    var j := VisitOf(bus, f, s, r);
    OutcomeOf(bus, bridge, f, s, j);
    OrderIsStableSort(keys);
    if Get(s, r).size > 0 {
      NonEmptyExtent(bus, bridge, f, s, j);
      BusFitsExactly(bus, bridge, f, s);
      OneBusTwoPass(IsIo(f), b.base, b.align, b.limit, keys, limits, ord);
      OffsetIs(bus, f, s, j);
    }
  }

  lemma OffsetIs(bus: Bus, f: Filter, s: State, j: nat)
    requires Distinct(BusResources(bus, f)) && j < |Order(KeysIn(BusResources(bus, f), s), None)|
    ensures var rs := BusResources(bus, f);
            var keys := KeysIn(rs, s);
            var ord := Order(keys, None);
            Offset(bus, f, s, rs[ord[j]]) == OffsetOf(IsIo(f), 0, keys, ord, j)
  {
    hide BusResources, Order, OffsetOf, Precedes;
    OrderIsStableSort(KeysIn(BusResources(bus, f), s));
  }

  /** A ready bus with a non-empty resource has an aligned window. */
  lemma NonEmptyExtent(bus: Bus, bridge: Resource, f: Filter, s: State, j: nat)
    requires Ready(bus, bridge, f, s)
    requires j < |Order(KeysIn(BusResources(bus, f), s), None)|
    requires KeysIn(BusResources(bus, f), s)[Order(KeysIn(BusResources(bus, f), s), None)[j]].size > 0
    ensures var rs, b := BusResources(bus, f), Get(s, bridge);
            var keys, limits := KeysIn(rs, s), LimitsIn(rs, s);
            var ord := Order(keys, None);
            && WindowAligned(IsIo(f), b.base, b.align)
            && forall k | 0 <= k < |ord| && keys[ord[k]].size > 0 ::
                 keys[ord[k]].align <= b.align && b.limit <= limits[ord[k]]
  {
    hide BusResources, Order, After, WindowAligned, Precedes;
    var rs, b := BusResources(bus, f), Get(s, bridge);
    var keys, limits := KeysIn(rs, s), LimitsIn(rs, s);
    var ord := Order(keys, None);
    OrderIsStableSort(keys);
    if Extent(bus, f, s) == 0 { ZeroExtent(IsIo(f), keys, ord, j); }
    forall k | 0 <= k < |ord| && keys[ord[k]].size > 0
      ensures keys[ord[k]].align <= b.align && b.limit <= limits[ord[k]]
    {
      assert rs[ord[k]] in rs && ord[k] in ord;
    }
  }

  /** The addresses of the resources of one bus. */
  lemma LevelExact(bus: Bus, bridge: Resource, f: Filter, s: State, x: int)
    requires WellFormed(bus, f) && bridge !in Footprint(bus, f)
    requires Ready(bus, bridge, f, s) && BusFits(bus, bridge, f, s)
    ensures LevelUses(bus, f, Allocate(bus, bridge, f, s), x) <==> LevelOver(bus, f, Get(s, bridge).base, s, x)
  {
    hide Footprint, WellFormed, BusResources, BusFits, AllocBus, Allocate, Ready, Offset;
    var base, t := Get(s, bridge).base, Allocate(bus, bridge, f, s);
    LevelOf(bus, f);
    LevelKept(bus, bridge, f, s);
    forall r | r in BusResources(bus, f) && !r.fixed
      ensures Get(t, r).size == Get(s, r).size && (Get(s, r).size > 0 ==> Get(t, r).base == base + Offset(bus, f, s, r))
    {
      LandsAtOffset(bus, bridge, f, s, r);
    }
  }

  /** The addresses in use behind placed windows are those of the layout at the base of the
      window. */
  lemma {:induction false} AddressesExact(bus: Bus, bridge: Resource, f: Filter, s0: State, s: State, x: int)
    requires WellFormed(bus, f) && bridge !in Footprint(bus, f)
    requires Ready(bus, bridge, f, s) && TreeSized(bus, f, s0, s) && WindowsAtZero(bus, f, s0)
    requires ExtentFits(Get(s, bridge).base, Extent(bus, f, s), Get(s, bridge).limit)
    ensures Uses(bus, f, Allocate(bus, bridge, f, s), x) <==> LaysOver(bus, f, Get(s, bridge).base, s, x)
    decreases bus
  {
    hide Footprint, WellFormed, BusResources, TreeSized, WindowsAtZero, Extent, BusFits, AllocBus, Allocate, Ready,
         WindowSized, IsWindow, ChildrenWindows, Agree, Turn, ExtentFits, Offset, LevelUses, LevelOver, Stranded;
    var base, t := Get(s, bridge).base, Allocate(bus, bridge, f, s);
    BusFitsExactly(bus, bridge, f, s);
    LevelOf(bus, f);
    LevelExact(bus, bridge, f, s, x);
    var ws := Windows(bus, f);
    forall i | 0 <= i < |ws| && !Stranded(bus, f, ws[i].res)
      ensures var w, sub := ws[i], SubFilter(f, ws[i].res);
              && Get(t, w.res).size == Get(s, w.res).size
              && (Get(s, w.res).size > 0 ==>
                    (Uses(w.link, sub, t, x) <==> LaysOver(w.link, sub, base + Offset(bus, f, s, w.res), s, x)))
    {
      var w, sub, u := ws[i], SubFilter(f, ws[i].res), Turn(bus, bridge, f, s, i);
      WindowCall(bus, bridge, f, s0, s, i);
      AfterTurn(bus, bridge, f, s, i);
      PlacedAtOffset(bus, bridge, f, s, w.res);
      AddressesExact(w.link, w.res, sub, s0, u, x);
      UsesFrame(w.link, sub, Allocate(w.link, w.res, sub, u), t, x);
      LaysOverFrame(w.link, sub, Get(u, w.res).base, u, s, x);
    }
  }

  lemma PlacedAtOffset(bus: Bus, bridge: Resource, f: Filter, s: State, r: Resource)
    requires Distinct(BusResources(bus, f)) && bridge !in BusResources(bus, f)
    requires Ready(bus, bridge, f, s) && BusFits(bus, bridge, f, s) && !Stranded(bus, f, r)
    ensures var c := Get(AllocBus(bus, bridge, f, s), r);
            c.size == Get(s, r).size && (c.size > 0 ==> c.base == Get(s, bridge).base + Offset(bus, f, s, r))
  {
    hide BusResources, AllocBus, BusFits, Ready, Offset;
    LandsAtOffset(bus, bridge, f, s, r);
  }

  // ----- behind stranded windows

  /** Address `x` has been given to a resource behind a stranded window. */
  ghost predicate StrandedUses(bus: Bus, f: Filter, s: State, x: int)
    decreases bus
  {
    var ws := Windows(bus, f);
    exists i :: 0 <= i < |ws| && ((Stranded(bus, f, ws[i].res) && Uses(ws[i].link, SubFilter(f, ws[i].res), s, x))
                                  || StrandedUses(ws[i].link, SubFilter(f, ws[i].res), s, x))
  }

  /** Address `x` is covered when what is behind each stranded window is laid out where the
      sizing pass has left the window. */
  ghost predicate StrandedOver(bus: Bus, f: Filter, s: State, x: int)
    decreases bus
  {
    var ws := Windows(bus, f);
    exists i :: 0 <= i < |ws|
                && ((Stranded(bus, f, ws[i].res)
                     && LaysOver(ws[i].link, SubFilter(f, ws[i].res), Get(s, ws[i].res).base, s, x))
                    || StrandedOver(ws[i].link, SubFilter(f, ws[i].res), s, x))
  }

  lemma {:induction false} StrandedUsesFrame(bus: Bus, f: Filter, s: State, t: State, x: int)
    requires Agree(Footprint(bus, f), s, t)
    ensures StrandedUses(bus, f, s, x) <==> StrandedUses(bus, f, t, x)
    decreases bus
  {
    hide Footprint, Stranded, Uses;
    var ws := Windows(bus, f);
    forall i | 0 <= i < |ws|
      ensures Uses(ws[i].link, SubFilter(f, ws[i].res), s, x) <==> Uses(ws[i].link, SubFilter(f, ws[i].res), t, x)
      ensures StrandedUses(ws[i].link, SubFilter(f, ws[i].res), s, x) <==>
                StrandedUses(ws[i].link, SubFilter(f, ws[i].res), t, x)
    {
      WindowWithin(bus, f, i);
      UsesFrame(ws[i].link, SubFilter(f, ws[i].res), s, t, x);
      StrandedUsesFrame(ws[i].link, SubFilter(f, ws[i].res), s, t, x);
    }
  }

  lemma {:induction false} StrandedOverFrame(bus: Bus, f: Filter, s: State, t: State, x: int)
    requires Agree(Footprint(bus, f), s, t)
    ensures StrandedOver(bus, f, s, x) <==> StrandedOver(bus, f, t, x)
    decreases bus
  {
    hide Footprint, Stranded, LaysOver;
    var ws := Windows(bus, f);
    forall i | 0 <= i < |ws|
      ensures Get(s, ws[i].res) == Get(t, ws[i].res)
      ensures LaysOver(ws[i].link, SubFilter(f, ws[i].res), Get(s, ws[i].res).base, s, x)
         <==> LaysOver(ws[i].link, SubFilter(f, ws[i].res), Get(t, ws[i].res).base, t, x)
      ensures StrandedOver(ws[i].link, SubFilter(f, ws[i].res), s, x) <==>
                StrandedOver(ws[i].link, SubFilter(f, ws[i].res), t, x)
    {
      WindowWithin(bus, f, i);
      LaysOverFrame(ws[i].link, SubFilter(f, ws[i].res), Get(s, ws[i].res).base, s, t, x);
      StrandedOverFrame(ws[i].link, SubFilter(f, ws[i].res), s, t, x);
    }
  }

  /** The addresses in use behind stranded windows, in a run without misfit. */
  lemma {:induction false} StrandedExact(bus: Bus, bridge: Resource, f: Filter, s0: State, s: State, x: int)
    requires WellFormed(bus, f) && bridge !in Footprint(bus, f)
    requires Ready(bus, bridge, f, s) && TreeSized(bus, f, s0, s) && WindowsAtZero(bus, f, s0)
    requires ExtentFits(Get(s, bridge).base, Extent(bus, f, s), Get(s, bridge).limit) && StrandedFit(bus, f, s)
    ensures StrandedUses(bus, f, Allocate(bus, bridge, f, s), x) <==> StrandedOver(bus, f, s, x)
    decreases bus
  {
    hide Footprint, WellFormed, BusResources, TreeSized, WindowsAtZero, Extent, BusFits, AllocBus, Allocate, Ready,
         WindowSized, IsWindow, ChildrenWindows, Agree, Turn, ExtentFits, Uses, LaysOver, Stranded;
    var t := Allocate(bus, bridge, f, s);
    BusFitsExactly(bus, bridge, f, s);
    var ws := Windows(bus, f);
    forall i | 0 <= i < |ws|
      ensures var w, sub := ws[i], SubFilter(f, ws[i].res);
              && (StrandedUses(w.link, sub, t, x) <==> StrandedOver(w.link, sub, s, x))
              && (Stranded(bus, f, w.res) ==>
                  (Uses(w.link, sub, t, x) <==> LaysOver(w.link, sub, Get(s, w.res).base, s, x)))
    {
      var w, sub, u := ws[i], SubFilter(f, ws[i].res), Turn(bus, bridge, f, s, i);
      WindowCall(bus, bridge, f, s0, s, i);
      AfterTurn(bus, bridge, f, s, i);
      StrandedFitFrame(w.link, sub, u, s);
      StrandedExact(w.link, w.res, sub, s0, u, x);
      StrandedUsesFrame(w.link, sub, Allocate(w.link, w.res, sub, u), t, x);
      StrandedOverFrame(w.link, sub, u, s, x);
      if Stranded(bus, f, w.res) {
        AddressesExact(w.link, w.res, sub, s0, u, x);
        UsesFrame(w.link, sub, Allocate(w.link, w.res, sub, u), t, x);
        LaysOverFrame(w.link, sub, Get(u, w.res).base, u, s, x);
      }
    }
  }
}
