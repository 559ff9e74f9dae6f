/** `constrain_resources` and `avoid_fixed_resources`: choosing the part of the address
    space that no fixed resource of the tree uses.

    Here the 64-bit arithmetic is modelled with its wrap-around: the code relies on a
    signed comparison of unsigned differences, and whether a difference wraps decides
    whether a fixed resource is avoided at all. */
module FixedResources {
  import opened ResourceTree
  import opened AllocatorState

  const TWO_64: nat := 0x1_0000_0000_0000_0000
  const MAX_ADDRESS: nat := TWO_64 - 1

  /** The value of a 64-bit unsigned computation. */
  function Word(x: int): nat { x % TWO_64 }

  lemma WordIs(x: nat)
    requires x < TWO_64
    ensures Word(x) == x
  {}

  /** The same bits read as a signed number. */
  function Signed(w: nat): int { if w >= TWO_64 / 2 then w - TWO_64 else w }

  /** The usable addresses of one type, from `base` to `limit`. */
  datatype Range = Range(base: nat, limit: nat) {
    predicate Has(x: int) { base <= x <= limit }
    predicate InWord() { base < TWO_64 && limit < TWO_64 }
  }

  datatype Limits = Limits(io: Range, mem: Range)

  /** Does the fixed resource reach into the range? */
  predicate Reaches(lim: Range, base: nat, size: nat) {
    !(Word(base + size - 1) < lim.base || base > lim.limit)
  }

  predicate GoesAbove(lim: Range, base: nat, size: nat) {
    Signed(Word(lim.limit - Word(base + size - 1))) > Signed(Word(base - lim.base))
  }

  /** The range that is left: above or below the fixed resource. */
  function Avoid(lim: Range, base: nat, size: nat): Range {
    if !Reaches(lim, base, size) then lim
    else if GoesAbove(lim, base, size) then lim.(base := Word(base + size))
    else lim.(limit := Word(base - 1))
  }

  function Constrain(lim: Limits, r: Resource, a: Attr): Limits {
    if !r.fixed || a.size == 0 then lim
    else match r.kind
      case Mem => lim.(mem := Avoid(lim.mem, a.base, a.size))
      case Io => lim.(io := Avoid(lim.io, a.base, a.size))
      case _ => lim
  }

  // ----- one fixed resource

  /** What avoiding a fixed resource means: nothing is added to the range, and no address
      of the resource is left in it. */
  ghost predicate Avoided(before: Range, after: Range, base: nat, size: nat) {
    forall x: int :: after.Has(x) ==> before.Has(x) && !(base <= x < base + size)
  }

  /** The chosen end of the resource is at the end of the 64-bit space. */
  predicate Wraps(lim: Range, base: nat, size: nat) {
    Reaches(lim, base, size) && if GoesAbove(lim, base, size) then base + size == TWO_64 else base == 0
  }

  /** A fixed resource is avoided exactly when stepping past it does not wrap. */
  lemma AvoidExact(lim: Range, base: nat, size: nat)
    requires lim.InWord() && 0 < size && base + size <= TWO_64
    ensures Avoided(lim, Avoid(lim, base, size), base, size) <==> !Wraps(lim, base, size)
    ensures Avoid(lim, base, size).InWord()
  {
    var after := Avoid(lim, base, size);
    if Wraps(lim, base, size) {
      var x := if GoesAbove(lim, base, size) then base else lim.base;
      assert after.Has(x) && base <= x < base + size;
    }
  }

  /** The wrap is real: memory from address 0 is not avoided while the upper limit is
      still the end of the address space, because the room above it, read as a signed
      number, is negative. */
  lemma LowMemoryNotAvoided()
    ensures var lim := Range(0, MAX_ADDRESS);
            Avoid(lim, 0, 0xA0000) == lim && Wraps(lim, 0, 0xA0000) && !Avoided(lim, Avoid(lim, 0, 0xA0000), 0, 0xA0000)
  {
    var lim := Range(0, MAX_ADDRESS);
    assert lim.Has(0) && 0 <= 0 < 0 + 0xA0000;
  }

  // ----- all fixed resources of a device and the enabled devices below it

  function TreeResources(dev: Device): seq<Resource>
    decreases dev
  {
    dev.resources + LinkResources(dev, 0)
  }

  function LinkResources(dev: Device, i: nat): seq<Resource>
    requires i <= |dev.links|
    decreases dev, |dev.links| - i, 0
  {
    if i == |dev.links| then [] else EnabledResources(dev.links[i], 0) + LinkResources(dev, i + 1)
  }

  function EnabledResources(bus: Bus, j: nat): seq<Resource>
    requires j <= |bus.children|
    decreases bus, |bus.children| - j, 0
  {
    if j == |bus.children| then []
    else (if bus.children[j].enabled then TreeResources(bus.children[j]) else []) + EnabledResources(bus, j + 1)
  }

  ghost function ConstrainAll(rs: seq<Resource>, s: State, lim: Limits): Limits {
    if rs == [] then lim else ConstrainAll(rs[1..], s, Constrain(lim, rs[0], Get(s, rs[0])))
  }

  lemma {:induction false} ConstrainAppend(a: seq<Resource>, b: seq<Resource>, s: State, lim: Limits)
    ensures ConstrainAll(a + b, s, lim) == ConstrainAll(b, s, ConstrainAll(a, s, lim))
  {
    if a == [] {
      assert a + b == b;
    } else {
      assert (a + b)[0] == a[0] && (a + b)[1..] == a[1..] + b;
      ConstrainAppend(a[1..], b, s, Constrain(lim, a[0], Get(s, a[0])));
    }
  }

  function OfKind(lim: Limits, io: bool): Range { if io then lim.io else lim.mem }

  predicate FixedOf(r: Resource, a: Attr, io: bool) {
    r.fixed && a.size > 0 && r.kind == (if io then Io else Mem)
  }

  /** No fixed resource met on the way makes its step wrap. */
  ghost predicate NeverWraps(rs: seq<Resource>, s: State, lim: Limits, io: bool) {
    rs != [] ==>
      var a := Get(s, rs[0]);
      && (FixedOf(rs[0], a, io) ==> a.base + a.size <= TWO_64 && !Wraps(OfKind(lim, io), a.base, a.size))
      && NeverWraps(rs[1..], s, Constrain(lim, rs[0], a), io)
  }

  /** Fixed resources that touch neither end of the 64-bit space never make it wrap. */
  lemma {:induction false} InnerResourcesNeverWrap(rs: seq<Resource>, s: State, lim: Limits, io: bool)
    requires forall r | r in rs && FixedOf(r, Get(s, r), io) ::
               0 < Get(s, r).base && Get(s, r).base + Get(s, r).size < TWO_64
    ensures NeverWraps(rs, s, lim, io)
  {
    if rs != [] { InnerResourcesNeverWrap(rs[1..], s, Constrain(lim, rs[0], Get(s, rs[0])), io); }
  }

  /** Nor does low memory, as long as the upper limit and all fixed resources are in the
      lower half of the space, and a gap follows the low memory. */
  lemma {:induction false} LowMemoryNeverWraps(rs: seq<Resource>, s: State, lim: Limits, io: bool, low: nat)
    requires OfKind(lim, io).base <= TWO_64 / 2 && low <= OfKind(lim, io).limit < TWO_64 / 2
    requires forall r | r in rs && FixedOf(r, Get(s, r), io) ::
               var a := Get(s, r);
               if a.base == 0 then a.size <= low else low < a.base && a.base + a.size <= TWO_64 / 2
    ensures NeverWraps(rs, s, lim, io)
  {
    if rs != [] {
      var a := Get(s, rs[0]);
      var next := Constrain(lim, rs[0], a);
      if FixedOf(rs[0], a, io) { LowerHalf(OfKind(lim, io), a.base, a.size, low); }
      hide Avoid, Wraps;
      assert OfKind(next, io) == (if FixedOf(rs[0], a, io)
                                  then Avoid(OfKind(lim, io), a.base, a.size)
                                  else OfKind(lim, io));
      LowMemoryNeverWraps(rs[1..], s, next, io, low);
    }
  }

  /** A resource outside the range leaves it as it is. */
  lemma OutsideKept(lim: Range, base: nat, size: nat)
    requires 0 < size && base + size <= TWO_64
    requires forall x: int | base <= x < base + size :: !lim.Has(x)
    ensures Avoid(lim, base, size) == lim || lim.base > lim.limit
  {
    WordIs(base + size - 1);
    if lim.base <= lim.limit && Reaches(lim, base, size) {
      var x := if base >= lim.base then base else lim.base;
      assert base <= x < base + size && lim.Has(x);
    }
  }

  /** In the lower half of the space, a resource inside the range leaves the larger of its two
      sides, and the lower one if they are equal. */
  lemma LargerSideKept(lim: Range, base: nat, size: nat)
    requires lim.base <= base && 0 < size && base + size - 1 <= lim.limit < TWO_64 / 2
    ensures var above, below := lim.limit - (base + size - 1), base - lim.base;
            && (above > below ==> Avoid(lim, base, size) == Range(base + size, lim.limit))
            && (above <= below && base > 0 ==> Avoid(lim, base, size) == Range(lim.base, base - 1))
  {
    WordIs(base + size - 1);
    WordIs(base + size);
    WordIs(lim.limit - (base + size - 1));
    WordIs(base - lim.base);
    if base > 0 { WordIs(base - 1); }
  }

  /** One such resource: low memory is avoided upwards, and the limit stays above it. */
  lemma LowerHalf(lim: Range, base: nat, size: nat, low: nat)
    requires lim.base <= TWO_64 / 2 && low <= lim.limit < TWO_64 / 2 && 0 < size
    requires if base == 0 then size <= low else low < base && base + size <= TWO_64 / 2
    ensures !Wraps(lim, base, size)
    ensures var after := Avoid(lim, base, size); after.base <= TWO_64 / 2 && low <= after.limit < TWO_64 / 2
  {
    WordIs(base + size - 1);
    SignedGap(lim.limit, base + size - 1);
    SignedGap(base, lim.base);
    hide Signed;
  }

  /** In the lower half of the space the signed reading of a difference is exact. */
  lemma SignedGap(a: nat, b: nat)
    requires a <= TWO_64 / 2 && b <= TWO_64 / 2 && a - b < TWO_64 / 2
    ensures Signed(Word(a - b)) == a - b
  {}

  /** Only fixed resources of the type count. */
  lemma {:induction false} NothingFixed(rs: seq<Resource>, s: State, lim: Limits, io: bool)
    requires forall r | r in rs :: !FixedOf(r, Get(s, r), io)
    ensures OfKind(ConstrainAll(rs, s, lim), io) == OfKind(lim, io)
  {
    hide Avoid;
    if rs != [] { NothingFixed(rs[1..], s, Constrain(lim, rs[0], Get(s, rs[0])), io); }
  }

  /** What is left after the walk lies in the initial range and contains no address of
      any fixed resource of its type in the tree. */
  lemma {:induction false} AllAvoided(rs: seq<Resource>, s: State, lim: Limits, io: bool)
    requires NeverWraps(rs, s, lim, io) && OfKind(lim, io).InWord()
    ensures OfKind(ConstrainAll(rs, s, lim), io).InWord()
    ensures forall x: int | OfKind(ConstrainAll(rs, s, lim), io).Has(x) ::
              && OfKind(lim, io).Has(x)
              && forall r | r in rs && FixedOf(r, Get(s, r), io) ::
                   !(Get(s, r).base <= x < Get(s, r).base + Get(s, r).size)
  {
    if rs != [] {
      var a := Get(s, rs[0]);
      var next := Constrain(lim, rs[0], a);
      if FixedOf(rs[0], a, io) {
        AvoidExact(OfKind(lim, io), a.base, a.size);
      }
      hide Avoid, Wraps, NeverWraps;
      assert OfKind(next, io) == (if FixedOf(rs[0], a, io)
                                  then Avoid(OfKind(lim, io), a.base, a.size)
                                  else OfKind(lim, io));
      AllAvoided(rs[1..], s, next, io);
    }
  }

  // ----- the walk as a program

  class Constraints {
    var io: Range
    var mem: Range

    constructor (io: Range, mem: Range)
      ensures this.io == io && this.mem == mem
    {
      this.io, this.mem := io, mem;
    }

    ghost function Value(): Limits
      reads this
    {
      Limits(io, mem)
    }
  }

  /** The body of the loop over a device's resources. */
  method ConstrainResource(res: Resource, limits: Constraints, ghost dom: set<Resource>, ghost s: State)
    requires res in dom && Holds(dom, s)
    modifies limits
    ensures Holds(dom, s) && limits.Value() == Constrain(old(limits.Value()), res, Get(s, res))
  {
    if !res.fixed || res.size == 0 {
      return;
    }
    var lim;
    match res.kind {
      case Mem => lim := limits.mem;
      case Io => lim := limits.io;
      case _ => return;
    }
    // A fixed resource outside the known region does not affect its limits.
    if Word(res.base + res.size - 1) < lim.base || res.base > lim.limit {
      return;
    }
    // Choose to be above or below; the check is signed.
    if Signed(Word(lim.limit - Word(res.base + res.size - 1))) > Signed(Word(res.base - lim.base)) {
      lim := lim.(base := Word(res.base + res.size));
    } else {
      lim := lim.(limit := Word(res.base - 1));
    }
    if res.kind == Mem {
      limits.mem := lim;
    } else {
      limits.io := lim;
    }
  }

  method ConstrainResources(dev: Device, limits: Constraints, ghost dom: set<Resource>, ghost s: State)
    requires ToSet(TreeResources(dev)) <= dom && Holds(dom, s)
    modifies limits
    ensures Holds(dom, s) && limits.Value() == ConstrainAll(TreeResources(dev), s, old(limits.Value()))
    decreases dev, 1
  {
    hide Constrain, Holds, LinkResources;
    SplitSet(dev.resources, LinkResources(dev, 0));
    ghost var start := limits.Value();
    for j := 0 to |dev.resources|
      invariant Holds(dom, s) && limits.Value() == ConstrainAll(dev.resources[..j], s, start)
    {
      assert dev.resources[j] in ToSet(dev.resources);
      assert dev.resources[..j + 1] == dev.resources[..j] + [dev.resources[j]];
      ConstrainAppend(dev.resources[..j], [dev.resources[j]], s, start);
      ConstrainResource(dev.resources[j], limits, dom, s);
    }
    assert dev.resources[..|dev.resources|] == dev.resources;
    ConstrainAppend(dev.resources, LinkResources(dev, 0), s, start);
    ConstrainLinks(dev, limits, dom, s);
  }

  /** Descend into every enabled child. */
  method ConstrainLinks(dev: Device, limits: Constraints, ghost dom: set<Resource>, ghost s: State)
    requires ToSet(LinkResources(dev, 0)) <= dom && Holds(dom, s)
    modifies limits
    ensures Holds(dom, s) && limits.Value() == ConstrainAll(LinkResources(dev, 0), s, old(limits.Value()))
    decreases dev, 0
  {
    hide Constrain, Holds, EnabledResources;
    ghost var goal := ConstrainAll(LinkResources(dev, 0), s, limits.Value());
    for i := 0 to |dev.links|
      invariant Holds(dom, s) && ToSet(LinkResources(dev, i)) <= dom
      invariant ConstrainAll(LinkResources(dev, i), s, limits.Value()) == goal
    {
      var link := dev.links[i];
      SplitSet(EnabledResources(link, 0), LinkResources(dev, i + 1));
      ConstrainAppend(EnabledResources(link, 0), LinkResources(dev, i + 1), s, limits.Value());
      ConstrainBus(link, limits, dom, s);
    }
  }

  method ConstrainBus(bus: Bus, limits: Constraints, ghost dom: set<Resource>, ghost s: State)
    requires ToSet(EnabledResources(bus, 0)) <= dom && Holds(dom, s)
    modifies limits
    ensures Holds(dom, s) && limits.Value() == ConstrainAll(EnabledResources(bus, 0), s, old(limits.Value()))
    decreases bus
  {
    hide Constrain, Holds, TreeResources;
    ghost var goal := ConstrainAll(EnabledResources(bus, 0), s, limits.Value());
    for j := 0 to |bus.children|
      invariant Holds(dom, s) && ToSet(EnabledResources(bus, j)) <= dom
      invariant ConstrainAll(EnabledResources(bus, j), s, limits.Value()) == goal
    {
      var child := bus.children[j];
      if child.enabled {
        SplitSet(TreeResources(child), EnabledResources(bus, j + 1));
        ConstrainAppend(TreeResources(child), EnabledResources(bus, j + 1), s, limits.Value());
        ConstrainResources(child, limits, dom, s);
      } else {
        assert EnabledResources(bus, j) == EnabledResources(bus, j + 1);
      }
    }
  }

  lemma SplitSet(a: seq<Resource>, b: seq<Resource>)
    ensures ToSet(a + b) == ToSet(a) + ToSet(b)
  {}
}
