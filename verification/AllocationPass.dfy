/** The allocation pass, `allocate_resources`: top down, every resource of a bus is given
    an address inside its bridge window, then the buses behind the windows follow. */
module AllocationPass {
  import opened Wrappers
  import opened PowersOfTwo
  import opened ResourceOrder
  import opened ResourceTree
  import opened ResourceIterator
  import opened BusLayout
  import opened AllocatorState
  import SizingPass

  // ----- the pass as a function of the state

  function Min(a: nat, b: nat): nat { if a > b then b else a }

  /** What the pass makes of one resource when its turn comes at `base`. */
  ghost function Outcome(io: bool, windowLimit: nat, base: nat, a: Attr): Attr {
    var limit := Min(a.limit, windowLimit);
    if a.size == 0 then a.(limit := limit, base := limit, isAssigned := true)
    else
      var at := PlaceAt(io, base, a.align);
      if at + a.size - 1 <= limit
      then a.(base := at, limit := at + a.size - 1, isAssigned := true, isStored := false)
      else a.(limit := limit)
  }

  ghost function NextBase(io: bool, windowLimit: nat, base: nat, a: Attr): nat {
    if a.size == 0 then base
    else if PlaceAt(io, base, a.align) + a.size - 1 <= Min(a.limit, windowLimit)
    then PlaceAt(io, base, a.align) + a.size
    else Bump(io, base)
  }

  ghost function AllocRun(io: bool, windowLimit: nat, rs: seq<Resource>, ord: seq<nat>, m: nat, start: nat,
                          s: State): (nat, State)
    requires m <= |ord| && forall k | 0 <= k < |ord| :: ord[k] < |rs|
  {
    if m == 0 then (start, s)
    else
      var (base, t) := AllocRun(io, windowLimit, rs, ord, m - 1, start, s);
      var r := rs[ord[m - 1]];
      (NextBase(io, windowLimit, base, Get(t, r)), t[r := Outcome(io, windowLimit, base, Get(t, r))])
  }

  ghost function AllocBus(bus: Bus, bridge: Resource, f: Filter, s: State): State {
    var rs := BusResources(bus, f);
    var ord := Order(KeysIn(rs, s), None);
    var t := AllocRun(IsIo(f), Get(s, bridge).limit, rs, ord, |ord|, Get(s, bridge).base, s).1;
    t[bridge := Get(t, bridge).(isAssigned := true)]
  }

  ghost function AllocWindows(bus: Bus, f: Filter, k: nat, s: State): State
    requires k <= |Windows(bus, f)|
    decreases bus, k
  {
    if k == 0 then s
    else
      var w := Windows(bus, f)[k - 1];
      Allocate(w.link, w.res, SubFilter(f, w.res), AllocWindows(bus, f, k - 1, s))
  }

  ghost function Allocate(bus: Bus, bridge: Resource, f: Filter, s: State): State
    decreases bus, |Windows(bus, f)| + 1
  {
    AllocWindows(bus, f, |Windows(bus, f)|, AllocBus(bus, bridge, f, s))
  }

  /** No resource of this bus takes the "didn't fit" branch. */
  ghost predicate BusFits(bus: Bus, bridge: Resource, f: Filter, s: State) {
    var rs := BusResources(bus, f);
    var keys := KeysIn(rs, s);
    AllPlaced(IsIo(f), Get(s, bridge).base, Get(s, bridge).limit, keys, LimitsIn(rs, s), Order(keys, None))
  }

  /** No resource takes that branch at any depth. */
  ghost predicate AllFit(bus: Bus, bridge: Resource, f: Filter, s: State)
    decreases bus, |Windows(bus, f)| + 1
  {
    BusFits(bus, bridge, f, s) && WindowsFit(bus, f, |Windows(bus, f)|, AllocBus(bus, bridge, f, s))
  }

  ghost predicate WindowsFit(bus: Bus, f: Filter, k: nat, s: State)
    requires k <= |Windows(bus, f)|
    decreases bus, k
  {
    k == 0 ||
    var w := Windows(bus, f)[k - 1];
    && WindowsFit(bus, f, k - 1, s)
    && AllFit(w.link, w.res, SubFilter(f, w.res), AllocWindows(bus, f, k - 1, s))
  }

  // ----- one bus in closed form

  /** `t` is `s` with the outcome of the first `m` resources. */
  ghost predicate HandedOut(io: bool, windowLimit: nat, rs: seq<Resource>, ord: seq<nat>, m: nat, start: nat,
                            s: State, t: State)
    requires m <= |ord| && ValidVisit(rs, ord)
  {
    var keys, limits := KeysIn(rs, s), LimitsIn(rs, s);
    && (forall j | 0 <= j < |ord| ::
          Get(t, rs[ord[j]]) == if j < m
                                then Outcome(io, windowLimit,
                                             AllocBase(io, start, windowLimit, keys, limits, ord[..j]),
                                             Get(s, rs[ord[j]]))
                                else Get(s, rs[ord[j]]))
    && OnlyChanges(set j | 0 <= j < |ord| :: rs[ord[j]], s, t)
  }

  lemma HandedOutKeys(io: bool, windowLimit: nat, rs: seq<Resource>, ord: seq<nat>, m: nat, start: nat, s: State,
                      t: State)
    requires m <= |ord| && ValidVisit(rs, ord) && HandedOut(io, windowLimit, rs, ord, m, start, s, t)
    ensures KeysIn(rs, t) == KeysIn(rs, s)
  {
    hide PlaceAt, AllocBase, Precedes;
    forall i | 0 <= i < |rs|
      ensures Get(s, rs[i]).align == Get(t, rs[i]).align && Get(s, rs[i]).size == Get(t, rs[i]).size
    {
      if j :| 0 <= j < |ord| && ord[j] == i {
      } else {
        assert rs[i] !in (set j | 0 <= j < |ord| :: rs[ord[j]]);
      }
    }
    SameKeys(rs, s, t);
  }

  lemma HandedOutStep(io: bool, windowLimit: nat, rs: seq<Resource>, ord: seq<nat>, m: nat, start: nat, base: nat,
                      s: State, t: State)
    requires m < |ord| && ValidVisit(rs, ord) && HandedOut(io, windowLimit, rs, ord, m, start, s, t)
    requires base == AllocBase(io, start, windowLimit, KeysIn(rs, s), LimitsIn(rs, s), ord[..m])
    ensures var r := rs[ord[m]];
            && NextBase(io, windowLimit, base, Get(t, r))
                 == AllocBase(io, start, windowLimit, KeysIn(rs, s), LimitsIn(rs, s), ord[..m + 1])
            && HandedOut(io, windowLimit, rs, ord, m + 1, start, s, t[r := Outcome(io, windowLimit, base, Get(t, r))])
  {
    hide PlaceAt, Outcome, Precedes, Bump, AllocBase;
    AllocBaseStep(io, start, windowLimit, KeysIn(rs, s), LimitsIn(rs, s), ord, m);
    var r := rs[ord[m]];
    assert KeysIn(rs, s)[ord[m]] == Key(Get(t, r).align, Get(t, r).size, r.fixed)
           && LimitsIn(rs, s)[ord[m]] == Get(t, r).limit;
  }

  lemma {:induction false} AllocRunClosed(io: bool, windowLimit: nat, rs: seq<Resource>, ord: seq<nat>, m: nat,
                                          start: nat, s: State)
    requires m <= |ord| && ValidVisit(rs, ord)
    ensures var (base, t) := AllocRun(io, windowLimit, rs, ord, m, start, s);
            && base == AllocBase(io, start, windowLimit, KeysIn(rs, s), LimitsIn(rs, s), ord[..m])
            && HandedOut(io, windowLimit, rs, ord, m, start, s, t)
  {
    if m > 0 {
      hide HandedOut, AllocBase, Outcome, NextBase;
      AllocRunClosed(io, windowLimit, rs, ord, m - 1, start, s);
      var (base, t) := AllocRun(io, windowLimit, rs, ord, m - 1, start, s);
      HandedOutStep(io, windowLimit, rs, ord, m - 1, start, base, s, t);
    }
  }

  /** The allocated resource `r` is the `j`-th one visited. */
  lemma VisitOf(bus: Bus, f: Filter, s: State, r: Resource) returns (j: nat)
    requires r in BusResources(bus, f) && !r.fixed
    ensures var ord := Order(KeysIn(BusResources(bus, f), s), None);
            j < |ord| && BusResources(bus, f)[ord[j]] == r
  {
    hide Order, BusResources, Precedes;
    var rs := BusResources(bus, f);
    var keys := KeysIn(rs, s);
    var ord := Order(keys, None);
    OrderIsStableSort(keys);
    var i :| 0 <= i < |rs| && rs[i] == r;
    assert !keys[i].fixed && i in ord;
    j :| 0 <= j < |ord| && ord[j] == i;
  }

  /** What one bus makes of the `j`-th resource visited. */
  lemma AllocBusAt(bus: Bus, bridge: Resource, f: Filter, s: State, j: nat)
    requires Distinct(BusResources(bus, f)) && bridge !in BusResources(bus, f)
    requires j < |Order(KeysIn(BusResources(bus, f), s), None)|
    ensures var rs, b := BusResources(bus, f), Get(s, bridge);
            var keys, limits := KeysIn(rs, s), LimitsIn(rs, s);
            var ord := Order(keys, None);
            Get(AllocBus(bus, bridge, f, s), rs[ord[j]])
            == Outcome(IsIo(f), b.limit, AllocBase(IsIo(f), b.base, b.limit, keys, limits, ord[..j]),
                       Get(s, rs[ord[j]]))
  {
    hide BusResources, Order, AllocBase, AllocRun, Outcome, Precedes, ValidVisit, Distinct;
    var rs, b := BusResources(bus, f), Get(s, bridge);
    var ord := Order(KeysIn(rs, s), None);
    OrderVisits(rs, s);
    AllocRunClosed(IsIo(f), b.limit, rs, ord, |ord|, b.base, s);
    assert rs[ord[j]] in rs;
  }

  /** On an I/O bus whose window starts at a multiple of 0x100, with sizes that are multiples of
      their alignments, every resource of a natural size up to 0x100 that is placed lies in
      the first 0x100 ports of a 0x400 block: its addresses have no aliases. */
  lemma PortsAliasFree(bus: Bus, bridge: Resource, f: Filter, s: State, r: Resource)
    requires Distinct(BusResources(bus, f)) && bridge !in BusResources(bus, f) && f.kind == Io
    requires Get(s, bridge).base % 0x100 == 0
    requires forall q | q in BusResources(bus, f) :: Get(s, q).size % Pow2(Get(s, q).align) == 0
    requires r in BusResources(bus, f) && !r.fixed && Get(s, r).align <= 8 && Get(s, r).size == Pow2(Get(s, r).align)
    ensures var c := Get(AllocBus(bus, bridge, f, s), r);
            c.limit == c.base + c.size - 1 && c.isAssigned && !Get(s, r).isAssigned ==>
              c.base % 0x400 + c.size <= 0x100
  {
    hide BusResources, Order, AllocBase, AllocBus, PlaceAt, Distinct, Precedes, Pow2;
    var rs, b := BusResources(bus, f), Get(s, bridge);
    var keys, limits := KeysIn(rs, s), LimitsIn(rs, s);
    var ord := Order(keys, None);
    OrderIsStableSort(keys);
    var j := MisfitKeepsBase(bus, bridge, f, s, r);
    forall i | 0 <= i < |keys| ensures keys[i].size % Pow2(keys[i].align) == 0 {
      assert rs[i] in rs;
    }
    IoAliasFree(b.base, b.limit, keys, limits, ord, j);
  }

  /** An empty resource of the bus is put at its limit, which the window bounds, and counts as
      assigned. */
  lemma EmptyAtLimit(bus: Bus, bridge: Resource, f: Filter, s: State, r: Resource)
    requires Distinct(BusResources(bus, f)) && bridge !in BusResources(bus, f)
    requires r in BusResources(bus, f) && !r.fixed && Get(s, r).size == 0
    ensures var a, b, c := Get(s, r), Get(s, bridge), Get(AllocBus(bus, bridge, f, s), r);
            && c.limit == (if a.limit <= b.limit then a.limit else b.limit) && c.base == c.limit && c.isAssigned
            && c.size == 0 && c.align == a.align && c.isStored == a.isStored
  {
    hide BusResources, Order, AllocBase, AllocBus, PlaceAt, Distinct;
    var j := VisitOf(bus, f, s, r);
    AllocBusAt(bus, bridge, f, s, j);
  }

  /** A resource that misfits keeps its base and its status, and one that is placed is
      assigned, and not yet stored. */
  lemma MisfitKeepsBase(bus: Bus, bridge: Resource, f: Filter, s: State, r: Resource) returns (j: nat)
    requires Distinct(BusResources(bus, f)) && bridge !in BusResources(bus, f)
    requires r in BusResources(bus, f) && !r.fixed && Get(s, r).size > 0
    ensures var rs, b := BusResources(bus, f), Get(s, bridge);
            var keys, limits := KeysIn(rs, s), LimitsIn(rs, s);
            var ord := Order(keys, None);
            var a, c := Get(s, r), Get(AllocBus(bus, bridge, f, s), r);
            && j < |ord| && rs[ord[j]] == r && c.size == a.size && c.align == a.align
            && if Placed(IsIo(f), b.base, b.limit, keys, limits, ord, j) then
                 && c.base == AddressOf(IsIo(f), b.base, b.limit, keys, limits, ord, j)
                 && c.limit == c.base + c.size - 1 && c.isAssigned && !c.isStored
               else
                 && c.base == a.base && c.isAssigned == a.isAssigned && c.isStored == a.isStored
                 && c.limit == if a.limit <= b.limit then a.limit else b.limit
  {
    hide BusResources, Order, AllocBase, AllocBus, PlaceAt, Distinct;
    j := VisitOf(bus, f, s, r);
    AllocBusAt(bus, bridge, f, s, j);
  }

  // ----- the pass changes nothing but the window's status and what lies behind it

  lemma {:induction false} AllocRunOnlyChanges(io: bool, windowLimit: nat, rs: seq<Resource>, ord: seq<nat>, m: nat,
                                               start: nat, s: State)
    requires m <= |ord| && forall k | 0 <= k < |ord| :: ord[k] < |rs|
    ensures OnlyChanges(ToSet(rs), s, AllocRun(io, windowLimit, rs, ord, m, start, s).1)
  {
    hide Outcome, NextBase;
    if m > 0 {
      var (base, t) := AllocRun(io, windowLimit, rs, ord, m - 1, start, s);
      var u := AllocRun(io, windowLimit, rs, ord, m, start, s).1;
      AllocRunOnlyChanges(io, windowLimit, rs, ord, m - 1, start, s);
      assert rs[ord[m - 1]] in ToSet(rs);
      assert OnlyChanges(ToSet(rs), t, u);
      OnlyChangesTrans(ToSet(rs), ToSet(rs), s, t, u);
    }
  }

  lemma AllocBusOnlyChanges(bus: Bus, bridge: Resource, f: Filter, s: State)
    ensures OnlyChanges(ToSet(BusResources(bus, f)) + {bridge}, s, AllocBus(bus, bridge, f, s))
  {
    var rs := BusResources(bus, f);
    var ord := Order(KeysIn(rs, s), None);
    AllocRunOnlyChanges(IsIo(f), Get(s, bridge).limit, rs, ord, |ord|, Get(s, bridge).base, s);
    var t := AllocRun(IsIo(f), Get(s, bridge).limit, rs, ord, |ord|, Get(s, bridge).base, s).1;
    hide BusResources, AllocRun, Order;
    assert OnlyChanges({bridge}, t, AllocBus(bus, bridge, f, s));
    OnlyChangesJoin(ToSet(rs), {bridge}, ToSet(rs) + {bridge}, s, t, AllocBus(bus, bridge, f, s));
  }

  lemma {:induction false} AllocateOnlyChanges(bus: Bus, bridge: Resource, f: Filter, s: State)
    ensures OnlyChanges(Footprint(bus, f) + {bridge}, s, Allocate(bus, bridge, f, s))
    decreases bus, |Windows(bus, f)| + 1
  {
    hide Footprint, OnlyChanges, AllocBus, BusResources;
    var n := |Windows(bus, f)|;
    var t := AllocBus(bus, bridge, f, s);
    AllocBusOnlyChanges(bus, bridge, f, s);
    AllocWindowsOnlyChanges(bus, f, n, t);
    BehindWithin(bus, f, n);
    FootprintContains(bus, f);
    OnlyChangesJoin(ToSet(BusResources(bus, f)) + {bridge}, Behind(bus, f, n), Footprint(bus, f) + {bridge},
                    s, t, Allocate(bus, bridge, f, s));
  }

  lemma {:induction false} AllocWindowsOnlyChanges(bus: Bus, f: Filter, k: nat, s: State)
    requires k <= |Windows(bus, f)|
    ensures OnlyChanges(Behind(bus, f, k), s, AllocWindows(bus, f, k, s))
    decreases bus, k
  {
    hide Footprint, Allocate, OnlyChanges, IsWindow, ChildrenWindows;
    if k == 0 {
      OnlyChangesRefl(Behind(bus, f, k), s);
    } else {
      var w := Windows(bus, f)[k - 1];
      var t := AllocWindows(bus, f, k - 1, s);
      AllocWindowsOnlyChanges(bus, f, k - 1, s);
      AllocateOnlyChanges(w.link, w.res, SubFilter(f, w.res), t);
      OnlyChangesJoin(Behind(bus, f, k - 1), Footprint(w.link, SubFilter(f, w.res)) + {w.res}, Behind(bus, f, k),
                      s, t, Allocate(w.link, w.res, SubFilter(f, w.res), t));
    }
  }

  // ----- the pass as a program

  /** `allocate_resources`.  The result says whether the "didn't fit" branch was avoided. */
  method AllocateResources(bus: Bus, bridge: Resource, f: Filter, ghost dom: set<Resource>, ghost s: State)
    returns (fit: bool)
    requires WellFormed(bus, f) && bridge !in Footprint(bus, f)
    requires Footprint(bus, f) <= dom && bridge in dom && Holds(dom, s)
    modifies dom
    ensures Holds(dom, Allocate(bus, bridge, f, s))
    ensures fit <==> AllFit(bus, bridge, f, s)
    decreases bus, 2
  {
    hide WellFormed, Footprint, BusResources, Windows, AllocBus, BusFits;
    LevelOf(bus, f);
    fit := AllocateBus(bus, bridge, f, dom, s);
    var below := AllocateChildWindows(bus, f, dom, AllocBus(bus, bridge, f, s));
    fit := fit && below;
  }

  method AllocateBus(bus: Bus, bridge: Resource, f: Filter, ghost dom: set<Resource>, ghost s: State)
    returns (fit: bool)
    requires Distinct(BusResources(bus, f)) && bridge !in BusResources(bus, f)
    requires ToSet(BusResources(bus, f)) <= dom && bridge in dom && Holds(dom, s)
    modifies dom
    ensures Holds(dom, AllocBus(bus, bridge, f, s))
    ensures fit <==> BusFits(bus, bridge, f, s)
  {
    hide AllocRun, BusResources, Order, AllPlaced;
    fit := HandOutAddresses(bus, bridge, f, dom, s);
    bridge.isAssigned := true;
  }

  /** The loop over the resources of one bus. */
  method HandOutAddresses(bus: Bus, bridge: Resource, f: Filter, ghost dom: set<Resource>, ghost s: State)
    returns (fit: bool)
    requires Distinct(BusResources(bus, f)) && bridge !in BusResources(bus, f)
    requires ToSet(BusResources(bus, f)) <= dom && bridge in dom && Holds(dom, s)
    modifies dom
    ensures var ord := Order(KeysIn(BusResources(bus, f), s), None);
            Holds(dom,
                  AllocRun(IsIo(f), Get(s, bridge).limit, BusResources(bus, f), ord, |ord|, Get(s, bridge).base, s).1)
    ensures fit <==> BusFits(bus, bridge, f, s)
  {
    hide BusResources, Order, Best, NextBase, Outcome, Holds, Distinct, Keys, KeysIn, Precedes, FitsUpTo, BusFits,
         AllocRun;
    ghost var rs := BusResources(bus, f);
    ghost var keys := KeysIn(rs, s);
    ghost var ord, m, l: Option<nat> := Order(keys, None), 0, None;
    ghost var start, io, window := Get(s, bridge).base, IsIo(f), Get(s, bridge).limit;
    FitsUpToNone(bus, bridge, f, s);
    fit := true;
    BridgeFields(bridge, dom, s);
    AllocRunStart(io, window, rs, ord, start, s);
    var base := bridge.base;
    var resource: Resource? := null;
    while true
      invariant AtIndex(rs, resource, l) && m <= |ord| && ord[m..] == Order(keys, l)
      invariant AllocRun(io, window, rs, ord, m, start, s).0 == base
      invariant Holds(dom, AllocRun(io, window, rs, ord, m, start, s).1)
      invariant fit <==> FitsUpTo(bus, bridge, f, s, m)
      decreases |ord| - m, resource == null
    {
      ghost var t := AllocRun(io, window, rs, ord, m, start, s).1;
      AllocRunKeys(bus, bridge, f, s, m);
      KeysHold(rs, dom, t);
      OrderStep(keys, ord, m, l);
      resource := LargestResource(bus, resource, f, l);
      l := Best(keys, l, |keys|);
      if resource == null {
        break;
      }
      assert resource in ToSet(rs);
      var placed;
      AllocRunNext(io, window, rs, ord, m, start, s);
      base, placed := HandOutAddress(bridge, resource, IsIo(f), window, base, dom, t);
      FitsUpToStep(bus, bridge, f, s, m);
      fit := fit && placed;
      m := m + 1;
    }
    FitsUpToAll(bus, bridge, f, s);
  }

  /** One turn of that loop; `placed` is false in the "didn't fit" branch. */
  method HandOutAddress(bridge: Resource, resource: Resource, io: bool, ghost window: nat, base0: nat,
                        ghost dom: set<Resource>, ghost s: State)
    returns (base: nat, placed: bool)
    requires bridge in dom && resource in dom && Holds(dom, s) && Get(s, bridge).limit == window && bridge != resource
    modifies dom
    ensures base == NextBase(io, window, base0, Get(s, resource))
    ensures Holds(dom, s[resource := Outcome(io, window, base0, Get(s, resource))])
    ensures placed <==> FitsNow(io, window, base0, Get(s, resource))
  {
    hide PlaceAt, Bump, Holds;
    base, placed := base0, true;
    ghost var a := Get(s, resource);
    ghost var t := s[resource := a.(limit := Min(a.limit, window))];
    var empty := InheritLimit(bridge, resource, dom, s);
    if !empty {
      base, placed := Place(resource, io, base, dom, t);
    }
    SetTwice(s, resource, a.(limit := Min(a.limit, window)), Outcome(io, window, base0, a));
  }

  lemma SetTwice(s: State, r: Resource, a: Attr, b: Attr)
    ensures s[r := a][r := b] == s[r := b]
  {}

  /** The limit of the bridge bounds that of the resource; an empty resource is then done. */
  method InheritLimit(bridge: Resource, resource: Resource, ghost dom: set<Resource>, ghost s: State)
    returns (empty: bool)
    requires bridge in dom && resource in dom && Holds(dom, s) && bridge != resource
    modifies dom
    ensures empty <==> Get(s, resource).size == 0
    ensures var a := Get(s, resource);
            var limit := Min(a.limit, Get(s, bridge).limit);
            Holds(dom, s[resource := if empty
                                     then a.(limit := limit, base := limit, isAssigned := true)
                                     else a.(limit := limit)])
  {
    if resource.limit > bridge.limit {
      resource.limit := bridge.limit;
    }
    empty := resource.size == 0;
    if empty {
      resource.base := resource.limit;
      resource.isAssigned := true;
    }
  }

  /** A non-empty resource gets the next address by its limit, if there is one. */
  method Place(resource: Resource, io: bool, base0: nat, ghost dom: set<Resource>, ghost s: State)
    returns (base: nat, placed: bool)
    requires resource in dom && Holds(dom, s) && Get(s, resource).size > 0
    modifies dom
    ensures var a := Get(s, resource);
            var at := PlaceAt(io, base0, a.align);
            && (placed <==> at + a.size - 1 <= a.limit)
            && base == (if placed then at + a.size else Bump(io, base0))
            && Holds(dom, if placed
                          then s[resource := a.(base := at, limit := at + a.size - 1, isAssigned := true,
                                                isStored := false)]
                          else s)
  {
    hide RoundTo, Bump;
    placed := true;
    base := AvoidAliases(io, base0);
    if RoundUp(base, resource.align) + resource.size - 1 <= resource.limit {
      base := RoundUp(base, resource.align);
      resource.base := base;
      resource.limit := resource.base + resource.size - 1;
      resource.isAssigned := true;
      resource.isStored := false;
      base := base + resource.size;
    } else {
      placed := false;
    }
  }

  lemma AllocRunStart(io: bool, window: nat, rs: seq<Resource>, ord: seq<nat>, start: nat, s: State)
    requires forall k | 0 <= k < |ord| :: ord[k] < |rs|
    ensures AllocRun(io, window, rs, ord, 0, start, s) == (start, s)
  {}

  lemma AllocRunNext(io: bool, window: nat, rs: seq<Resource>, ord: seq<nat>, m: nat, start: nat, s: State)
    requires m < |ord| && forall k | 0 <= k < |ord| :: ord[k] < |rs|
    ensures var (base, t) := AllocRun(io, window, rs, ord, m, start, s);
            var r := rs[ord[m]];
            AllocRun(io, window, rs, ord, m + 1, start, s)
            == (NextBase(io, window, base, Get(t, r)), t[r := Outcome(io, window, base, Get(t, r))])
  {}

  ghost predicate FitsNow(io: bool, window: nat, base: nat, a: Attr) {
    a.size == 0 || PlaceAt(io, base, a.align) + a.size - 1 <= Min(a.limit, window)
  }

  /** The first `m` resources of the bus all fit. */
  ghost predicate FitsUpTo(bus: Bus, bridge: Resource, f: Filter, s: State, m: nat) {
    var rs := BusResources(bus, f);
    var keys := KeysIn(rs, s);
    var ord := Order(keys, None);
    m <= |ord| && AllPlaced(IsIo(f), Get(s, bridge).base, Get(s, bridge).limit, keys, LimitsIn(rs, s), ord[..m])
  }

  lemma FitsUpToNone(bus: Bus, bridge: Resource, f: Filter, s: State)
    ensures FitsUpTo(bus, bridge, f, s, 0)
  {}

  lemma FitsUpToAll(bus: Bus, bridge: Resource, f: Filter, s: State)
    ensures FitsUpTo(bus, bridge, f, s, |Order(KeysIn(BusResources(bus, f), s), None)|) <==> BusFits(bus, bridge, f, s)
  {
    var ord := Order(KeysIn(BusResources(bus, f), s), None);
    assert ord[..|ord|] == ord;
  }

  lemma FitsUpToStep(bus: Bus, bridge: Resource, f: Filter, s: State, m: nat)
    requires Distinct(BusResources(bus, f)) && m < |Order(KeysIn(BusResources(bus, f), s), None)|
    ensures var rs := BusResources(bus, f);
            var ord := Order(KeysIn(rs, s), None);
            var (base, t) := AllocRun(IsIo(f), Get(s, bridge).limit, rs, ord, m, Get(s, bridge).base, s);
            FitsUpTo(bus, bridge, f, s, m + 1) <==>
              FitsUpTo(bus, bridge, f, s, m) && FitsNow(IsIo(f), Get(s, bridge).limit, base, Get(t, rs[ord[m]]))
  {
    hide BusResources, Order, Precedes, AllocBase, AllocRun, PlaceAt, AllPlaced, Distinct, ValidVisit;
    var rs := BusResources(bus, f);
    var keys, limits := KeysIn(rs, s), LimitsIn(rs, s);
    var ord := Order(keys, None);
    var io, start, window := IsIo(f), Get(s, bridge).base, Get(s, bridge).limit;
    OrderVisits(rs, s);
    AllocRunAt(io, window, rs, ord, m, start, s);
    PlacedPrefix(io, start, window, keys, limits, ord[..m + 1]);
    assert ord[..m + 1][..m] == ord[..m] && ord[..m + 1][m] == ord[m];
  }

  lemma OrderVisits(rs: seq<Resource>, s: State)
    requires Distinct(rs)
    ensures ValidVisit(rs, Order(KeysIn(rs, s), None))
    ensures var ord := Order(KeysIn(rs, s), None); forall j | 0 <= j < |ord| :: !rs[ord[j]].fixed
  {
    hide Order, Precedes;
    OrderIsStableSort(KeysIn(rs, s));
    var ord := Order(KeysIn(rs, s), None);
    assert forall j | 0 <= j < |ord| :: ord[j] in ord;
  }

  /** When the turn of a resource comes, it is as it was at the start. */
  lemma AllocRunAt(io: bool, window: nat, rs: seq<Resource>, ord: seq<nat>, m: nat, start: nat, s: State)
    requires m < |ord| && ValidVisit(rs, ord)
    ensures var (base, t) := AllocRun(io, window, rs, ord, m, start, s);
            && Get(t, rs[ord[m]]) == Get(s, rs[ord[m]])
            && base == AllocBase(io, start, window, KeysIn(rs, s), LimitsIn(rs, s), ord[..m])
  {
    hide AllocRun, AllocBase, Outcome, Precedes;
    AllocRunClosed(io, window, rs, ord, m, start, s);
  }

  lemma AllocRunKeys(bus: Bus, bridge: Resource, f: Filter, s: State, m: nat)
    requires Distinct(BusResources(bus, f)) && bridge !in BusResources(bus, f)
    requires m <= |Order(KeysIn(BusResources(bus, f), s), None)|
    ensures var rs := BusResources(bus, f);
            var ord := Order(KeysIn(rs, s), None);
            var t := AllocRun(IsIo(f), Get(s, bridge).limit, rs, ord, m, Get(s, bridge).base, s).1;
            KeysIn(rs, t) == KeysIn(rs, s) && Get(t, bridge) == Get(s, bridge)
  {
    var rs := BusResources(bus, f);
    var ord := Order(KeysIn(rs, s), None);
    var io, start, window := IsIo(f), Get(s, bridge).base, Get(s, bridge).limit;
    OrderVisits(rs, s);
    AllocRunClosed(io, window, rs, ord, m, start, s);
    HandedOutKeys(io, window, rs, ord, m, start, s, AllocRun(io, window, rs, ord, m, start, s).1);
    hide BusResources, Order, Precedes, AllocBase, AllocRun, Outcome;
    Unchanged(set j | 0 <= j < |ord| :: rs[ord[j]], s, AllocRun(io, window, rs, ord, m, start, s).1, bridge);
  }

  lemma BridgeFields(bridge: Resource, dom: set<Resource>, s: State)
    requires bridge in dom && Holds(dom, s)
    ensures bridge.base == Get(s, bridge).base && bridge.limit == Get(s, bridge).limit
  {}

  /** The second loop: the buses behind the windows of the children. */
  method AllocateChildWindows(bus: Bus, f: Filter, ghost dom: set<Resource>, ghost s: State)
    returns (fit: bool)
    requires WellFormed(bus, f)
    requires Footprint(bus, f) <= dom && Holds(dom, s)
    modifies dom
    ensures Holds(dom, AllocWindows(bus, f, |Windows(bus, f)|, s))
    ensures fit <==> WindowsFit(bus, f, |Windows(bus, f)|, s)
    decreases bus, 1
  {
    hide WellFormed, Footprint, Allocate, Holds, DeviceWindows, AllFit;
    ghost var k: nat := 0;
    fit := true;
    for i := 0 to |bus.children|
      invariant k <= |Windows(bus, f)| && Windows(bus, f)[k..] == ChildrenWindows(bus, i, f)
      invariant Holds(dom, AllocWindows(bus, f, k, s)) && (fit <==> WindowsFit(bus, f, k, s))
    {
      if bus.children[i].links == [] {
        SizingPass.NoLinksNoWindows(bus.children[i], 0, f);
        continue;
      }
      k, fit := AllocateDeviceWindows(bus, i, f, k, fit, dom, s);
    }
  }

  method AllocateDeviceWindows(bus: Bus, i: nat, f: Filter, ghost k0: nat, fit0: bool, ghost dom: set<Resource>,
                               ghost s: State)
    returns (ghost k: nat, fit: bool)
    requires WellFormed(bus, f) && i < |bus.children| && bus.children[i].links != []
    requires k0 <= |Windows(bus, f)| && Windows(bus, f)[k0..] == ChildrenWindows(bus, i, f)
    requires Footprint(bus, f) <= dom && Holds(dom, AllocWindows(bus, f, k0, s))
    requires fit0 <==> WindowsFit(bus, f, k0, s)
    modifies dom
    ensures k <= |Windows(bus, f)| && Windows(bus, f)[k..] == ChildrenWindows(bus, i + 1, f)
    ensures Holds(dom, AllocWindows(bus, f, k, s)) && (fit <==> WindowsFit(bus, f, k, s))
    decreases bus, 0
  {
    hide WellFormed, Footprint, Allocate, Holds, Windows, AllFit, ChildrenWindows, DeviceWindows, IsWindow;
    var dev := bus.children[i];
    k, fit := k0, fit0;
    SizingPass.DeviceFirst(bus, i, f);
    for j := 0 to |dev.resources|
      invariant k <= |Windows(bus, f)|
      invariant Windows(bus, f)[k..] == DeviceWindows(dev, j, f) + ChildrenWindows(bus, i + 1, f)
      invariant Holds(dom, AllocWindows(bus, f, k, s)) && (fit <==> WindowsFit(bus, f, k, s))
    {
      var childBridge := dev.resources[j];
      if !IsWindow(childBridge, f) {
        SizingPass.NoWindow(dev, j, f);
        continue;
      }
      var link := FindLink(dev.links, LinkOfIndex(childBridge.index));
      SizingPass.NextWindow(bus, f, i, j, k);
      var below := AllocateResources(dev.links[link.value], childBridge, SubFilter(f, childBridge), dom,
                                     AllocWindows(bus, f, k, s));
      fit := fit && below;
      k := k + 1;
    }
  }
}
