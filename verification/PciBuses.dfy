/** Bus numbering of PCI bridges: a depth-first walk that numbers buses as it meets them
    and opens each bridge for the numbers behind it. */
module PciBuses {
  import opened Wrappers

  /** The bus behind a bridge, with the bus numbers in the bridge's configuration register. */
  class Link {
    var secondary: nat
    var subordinate: nat
    var register: Numbers

    constructor ()
    {
      secondary, subordinate, register := 0, 0, Numbers(0, 0, 0);
    }
  }

  /** A device that has a bus behind it.  A disabled one is not scanned. */
  datatype Bridge = Bridge(enabled: bool, link: Link, children: seq<Bridge>)

  datatype Numbers = Numbers(primary: nat, secondary: nat, subordinate: nat)

  /** The buses behind a list of bridges, in pre-order. */
  function Buses(bs: seq<Bridge>): seq<Link>
    decreases bs
  {
    if bs == [] then [] else BusesOf(bs[0]) + Buses(bs[1..])
  }

  function BusesOf(b: Bridge): seq<Link>
    decreases b
  {
    if b.enabled then [b.link] + Buses(b.children) else []
  }

  /** A bus is numbered exactly if the bridge to it is enabled, and all bridges above it. */
  lemma {:induction false} BusesTaken(bs: seq<Bridge>, x: Link)
    ensures x in Buses(bs) <==>
              exists i :: 0 <= i < |bs| && bs[i].enabled && (x == bs[i].link || x in Buses(bs[i].children))
    decreases |bs|
  {
    if bs != [] {
      BusesTaken(bs[1..], x);
      var rest := bs[1..];
      assert forall i | 0 <= i < |rest| :: rest[i] == bs[i + 1];
      if i :| 0 <= i < |bs| && bs[i].enabled && (x == bs[i].link || x in Buses(bs[i].children)) {
        if i > 0 { assert rest[i - 1] == bs[i]; }
      }
    }
  }

  /** The numbers of these buses, in the same order: the bridges are on the bus `own`, and
      `last` is the last number given out. */
  function Assign(bs: seq<Bridge>, own: nat, last: nat): (ns: seq<Numbers>)
    ensures |ns| == |Buses(bs)|
    decreases bs
  {
    if bs == [] then [] else AssignOne(bs[0], own, last) + Assign(bs[1..], own, last + |BusesOf(bs[0])|)
  }

  function AssignOne(b: Bridge, own: nat, last: nat): (ns: seq<Numbers>)
    ensures |ns| == |BusesOf(b)|
    decreases b
  {
    if b.enabled
    then [Numbers(own, last + 1, last + |BusesOf(b)|)] + Assign(b.children, last + 1, last + 1)
    else []
  }

  // ----- what the numbering means

  /** The bridge that leads to the bus at position `k` of the pre-order. */
  function BridgeAt(bs: seq<Bridge>, k: nat): Bridge
    requires k < |Buses(bs)|
    decreases bs
  {
    if k < |BusesOf(bs[0])| then BridgeAtOne(bs[0], k) else BridgeAt(bs[1..], k - |BusesOf(bs[0])|)
  }

  function BridgeAtOne(b: Bridge, k: nat): Bridge
    requires k < |BusesOf(b)|
    decreases b
  {
    if k == 0 then b else BridgeAt(b.children, k - 1)
  }

  /** Buses are numbered one after another, in pre-order, and the last number of a bridge is
      its own number plus that of the buses behind it. */
  lemma {:induction false} PreOrder(bs: seq<Bridge>, own: nat, last: nat, k: nat)
    requires k < |Buses(bs)|
    ensures var n := Assign(bs, own, last)[k];
            && n.secondary == last + 1 + k && n.subordinate == last + k + |BusesOf(BridgeAt(bs, k))|
            && n.secondary <= n.subordinate <= last + |Buses(bs)|
            && (own <= last ==> n.primary < n.secondary)
    decreases bs
  {
    if k < |BusesOf(bs[0])| {
      PreOrderOne(bs[0], own, last, k);
    } else {
      PreOrder(bs[1..], own, last + |BusesOf(bs[0])|, k - |BusesOf(bs[0])|);
    }
  }

  lemma {:induction false} PreOrderOne(b: Bridge, own: nat, last: nat, k: nat)
    requires k < |BusesOf(b)|
    ensures var n := AssignOne(b, own, last)[k];
            && n.secondary == last + 1 + k && n.subordinate == last + k + |BusesOf(BridgeAtOne(b, k))|
            && n.secondary <= n.subordinate <= last + |BusesOf(b)|
            && (own <= last ==> n.primary < n.secondary)
    decreases b
  {
    if k > 0 { PreOrder(b.children, last + 1, last + 1, k - 1); }
  }

  /** The buses of a bridge stand together in the pre-order, its own bus first. */
  lemma {:induction false} Together(bs: seq<Bridge>, k: nat)
    requires k < |Buses(bs)|
    ensures var mine := BusesOf(BridgeAt(bs, k));
            && mine != [] && mine[0] == BridgeAt(bs, k).link == Buses(bs)[k]
            && k + |mine| <= |Buses(bs)| && Buses(bs)[k..k + |mine|] == mine
    decreases bs
  {
    var n, rest := |BusesOf(bs[0])|, Buses(bs[1..]);
    assert Buses(bs) == BusesOf(bs[0]) + rest;
    if k < n {
      TogetherOne(bs[0], k);
      var m := |BusesOf(BridgeAt(bs, k))|;
      assert Buses(bs)[k..k + m] == BusesOf(bs[0])[k..k + m];
    } else {
      Together(bs[1..], k - n);
      var m := |BusesOf(BridgeAt(bs, k))|;
      assert Buses(bs)[k..k + m] == rest[k - n..k - n + m];
    }
  }

  lemma {:induction false} TogetherOne(b: Bridge, k: nat)
    requires k < |BusesOf(b)|
    ensures var mine := BusesOf(BridgeAtOne(b, k));
            && mine != [] && mine[0] == BridgeAtOne(b, k).link == BusesOf(b)[k]
            && k + |mine| <= |BusesOf(b)| && BusesOf(b)[k..k + |mine|] == mine
    decreases b
  {
    var all := BusesOf(b);
    if k > 0 {
      Together(b.children, k - 1);
      var m := |BusesOf(BridgeAtOne(b, k))|;
      assert all[k..k + m] == Buses(b.children)[k - 1..k - 1 + m];
    } else {
      assert all[0..|all|] == all;
    }
  }

  /** The interval of a bridge contains the number of a bus exactly if that is the bridge's
      own bus or one behind it. */
  lemma IntervalExact(bs: seq<Bridge>, own: nat, last: nat, k: nat, j: nat)
    requires Distinct(Buses(bs)) && k < |Buses(bs)| && j < |Buses(bs)|
    ensures Claims(Assign(bs, own, last)[k], Assign(bs, own, last)[j].secondary) <==>
              Buses(bs)[j] in BusesOf(BridgeAt(bs, k))
  {
    hide Buses, BusesOf, BridgeAt, Assign;
    PreOrder(bs, own, last, k);
    PreOrder(bs, own, last, j);
    Together(bs, k);
    var all, mine := Buses(bs), BusesOf(BridgeAt(bs, k));
    if k <= j < k + |mine| { assert mine[j - k] == all[k..k + |mine|][j - k] == all[j]; }
    if all[j] in mine {
      var i :| 0 <= i < |mine| && mine[i] == all[j];
      assert all[k + i] == all[k..k + |mine|][i] == all[j];
    }
  }

  /** Does this bridge pass a request for bus `x` on? */
  predicate Claims(ns: Numbers, x: nat) { ns.secondary <= x <= ns.subordinate }

  /** The bus that a request for bus `x` reaches when every bridge passes on what it claims:
      a position in pre-order, or nothing if no bridge claims it. */
  function Route(bs: seq<Bridge>, own: nat, last: nat, x: nat): Option<nat>
    decreases bs
  {
    if bs == [] then None
    else
      var b, n := bs[0], |BusesOf(bs[0])|;
      if b.enabled && Claims(AssignOne(b, own, last)[0], x) then
        if x == last + 1 then Some(0)
        else match Route(b.children, last + 1, last + 1, x)
          case None => None
          case Some(k) => Some(1 + k)
      else match Route(bs[1..], own, last + n, x)
        case None => None
        case Some(k) => Some(n + k)
  }

  /** A request for a bus number arrives at exactly the bus with that number. */
  lemma {:induction false} RouteArrives(bs: seq<Bridge>, own: nat, last: nat, x: nat)
    requires last < x
    ensures Route(bs, own, last, x) == if x <= last + |Buses(bs)| then Some(x - last - 1) else None
    decreases bs
  {
    if bs != [] {
      var b, n := bs[0], |BusesOf(bs[0])|;
      if b.enabled && Claims(AssignOne(b, own, last)[0], x) {
        if x > last + 1 { RouteArrives(b.children, last + 1, last + 1, x); }
      } else {
        assert x > last + n;
        RouteArrives(bs[1..], own, last + n, x);
      }
    }
  }

  /** A number claimed by one bridge is claimed by none of its later siblings, nor by what
      is behind them. */
  lemma SiblingsApart(bs: seq<Bridge>, own: nat, last: nat, x: nat, k: nat)
    requires bs != [] && bs[0].enabled && Claims(AssignOne(bs[0], own, last)[0], x) && k < |Buses(bs[1..])|
    ensures !Claims(Assign(bs[1..], own, last + |BusesOf(bs[0])|)[k], x)
  {
    PreOrder(bs[1..], own, last + |BusesOf(bs[0])|, k);
    PreOrderOne(bs[0], own, last, 0);
  }

  /** The primary number of a bridge is the bus it is on: that of the innermost bridge around
      it, or `own` if there is none. */
  lemma {:induction false} PrimaryIs(bs: seq<Bridge>, own: nat, last: nat, k: nat)
    requires own <= last && k < |Buses(bs)|
    ensures OnItsBus(Assign(bs, own, last), own, k)
    decreases bs
  {
    hide BusesOf, AssignOne;
    var b, n, rest := bs[0], |BusesOf(bs[0])|, Assign(bs[1..], own, last + |BusesOf(bs[0])|);
    var mine := AssignOne(b, own, last);
    var all := Assign(bs, own, last);
    assert all == mine + rest;
    forall j | 0 <= j < |all|
      ensures all[j].secondary == last + 1 + j <= all[j].subordinate && (j < n ==> all[j].subordinate <= last + n)
    {
      PreOrder(bs, own, last, j);
      if j < n { PreOrderOne(b, own, last, j); }
    }
    if k < n {
      PrimaryOfOne(b, own, last, k);
      forall j | 0 <= j < |rest| ensures !Claims(rest[j], mine[k].secondary) {
        assert all[n + j] == rest[j] && all[k] == mine[k];
      }
      OnBusAppended(mine, rest, own, k);
    } else {
      PrimaryIs(bs[1..], own, last + n, k - n);
      forall j | 0 <= j < |mine| ensures !Claims(mine[j], rest[k - n].secondary) {
        assert all[j] == mine[j] && all[k] == rest[k - n];
      }
      OnBusPrepended(mine, rest, own, k - n);
    }
  }

  ghost predicate OnItsBus(ns: seq<Numbers>, own: nat, k: nat)
    requires k < |ns|
  {
    && own <= ns[k].primary
    && (ns[k].primary == own || exists j ::
        0 <= j < |ns| && j != k && Around(ns, j, k) && ns[j].secondary == ns[k].primary)
    && forall j | 0 <= j < |ns| && j != k && Around(ns, j, k) :: ns[j].secondary <= ns[k].primary
  }

  /** Bridge `j` passes requests for the bus behind bridge `k` on. */
  predicate Around(ns: seq<Numbers>, j: nat, k: nat)
    requires j < |ns| && k < |ns|
  {
    Claims(ns[j], ns[k].secondary)
  }

  lemma OnBusAppended(a: seq<Numbers>, b: seq<Numbers>, own: nat, k: nat)
    requires k < |a| && OnItsBus(a, own, k)
    requires forall j | 0 <= j < |b| :: !Claims(b[j], a[k].secondary)
    ensures OnItsBus(a + b, own, k)
  {
    var all := a + b;
    forall j | 0 <= j < |all| ensures Around(all, j, k) <==> j < |a| && Around(a, j, k) {}
    if a[k].primary != own {
      var j :| 0 <= j < |a| && j != k && Around(a, j, k) && a[j].secondary == a[k].primary;
      assert Around(all, j, k) && all[j].secondary == all[k].primary;
    }
  }

  lemma OnBusPrepended(a: seq<Numbers>, b: seq<Numbers>, own: nat, k: nat)
    requires k < |b| && OnItsBus(b, own, k)
    requires forall j | 0 <= j < |a| :: !Claims(a[j], b[k].secondary)
    ensures OnItsBus(a + b, own, |a| + k)
  {
    var all := a + b;
    forall i | 0 <= i < |b| ensures Around(b, i, k) <==> Around(all, |a| + i, |a| + k) {}
    forall j | 0 <= j < |all| && j != |a| + k && Around(all, j, |a| + k)
      ensures all[j].secondary <= all[|a| + k].primary
    {
      if j >= |a| { assert Around(b, j - |a|, k); }
    }
    if b[k].primary != own {
      var j :| 0 <= j < |b| && j != k && Around(b, j, k) && b[j].secondary == b[k].primary;
      assert Around(all, |a| + j, |a| + k) && all[|a| + j].secondary == all[|a| + k].primary;
    }
  }

  lemma {:induction false} PrimaryOfOne(b: Bridge, own: nat, last: nat, k: nat)
    requires own <= last && k < |BusesOf(b)|
    ensures OnItsBus(AssignOne(b, own, last), own, k)
    decreases b
  {
    hide Buses, Assign;
    var ns := AssignOne(b, own, last);
    var below := Assign(b.children, last + 1, last + 1);
    assert ns == [ns[0]] + below;
    forall j | 0 <= j < |ns| ensures ns[j].secondary == last + 1 + j <= ns[j].subordinate <= ns[0].subordinate {
      PreOrderOne(b, own, last, j);
    }
    if k > 0 {
      PrimaryIs(b.children, last + 1, last + 1, k - 1);
      assert Around(ns, 0, k);
      BehindOne(ns, below, own, last, k);
    }
  }

  /** One more bridge around all of them. */
  lemma BehindOne(ns: seq<Numbers>, below: seq<Numbers>, own: nat, last: nat, k: nat)
    requires own <= last && 0 < k < |ns| && ns == [ns[0]] + below && ns[0].secondary == last + 1
    requires OnItsBus(below, last + 1, k - 1) && Around(ns, 0, k)
    ensures OnItsBus(ns, own, k)
  {
    forall j | 0 < j < |ns| ensures Around(ns, j, k) <==> Around(below, j - 1, k - 1) {}
    if below[k - 1].primary != last + 1 {
      var j :| 0 <= j < |below| && j != k - 1 && Around(below, j, k - 1) && below[j].secondary == below[k - 1].primary;
      assert Around(ns, j + 1, k) && ns[j + 1].secondary == ns[k].primary;
    }
  }

  /** What a bridge's register keeps of its numbers. */
  function InRegister(ns: Numbers): Numbers {
    Numbers(ns.primary % 256, ns.secondary % 256, ns.subordinate % 256)
  }

  /** The registers hold the numbers of all buses exactly when the last one is at most 255;
      a deeper tree is numbered, but not routed. */
  lemma RegistersExact(bs: seq<Bridge>, own: nat, last: nat)
    requires own <= last && Buses(bs) != []
    ensures last + |Buses(bs)| <= 255 <==>
              forall k | 0 <= k < |Assign(bs, own, last)| ::
                InRegister(Assign(bs, own, last)[k]) == Assign(bs, own, last)[k]
  {
    hide Assign, Buses;
    var ns := Assign(bs, own, last);
    if last + |Buses(bs)| <= 255 {
      forall k | 0 <= k < |ns| ensures InRegister(ns[k]) == ns[k] { PreOrder(bs, own, last, k); }
    } else {
      PreOrder(bs, own, last, |ns| - 1);
      assert InRegister(ns[|ns| - 1]) != ns[|ns| - 1];
    }
  }

  // ----- the scan

  ghost predicate Distinct(s: seq<Link>) { forall i, j | 0 <= i < j < |s| :: s[i] != s[j] }

  /** The link holds its numbers, and the register their low eight bits. */
  ghost predicate Has(link: Link, ns: Numbers)
    reads link
  {
    && link.secondary == ns.secondary && link.subordinate == ns.subordinate
    && link.register == InRegister(ns)
  }

  ghost function Links(s: seq<Link>): set<Link> { set x | x in s }

  ghost predicate AllHave(links: seq<Link>, ns: seq<Numbers>)
    reads Links(links)
  {
    |links| == |ns| && forall k | 0 <= k < |links| :: Has(links[k], ns[k])
  }

  /** These bridges are open: their registers pass on every number that may come after
      `last`. */
  ghost predicate AllOpen(above: set<Link>, last: nat)
    reads above
  {
    forall l | l in above ::
      l.register.secondary == l.secondary % 256 && l.register.subordinate == 0xff && l.secondary <= last
  }

  /** So during the scan every request for a bus to be found reaches the place of the scan. */
  lemma OpenClaims(above: set<Link>, last: nat, l: Link, x: nat)
    requires AllOpen(above, last) && l in above && last < x <= 255
    ensures Claims(l.register, x)
  {}

  /** `scan_bridges` on the bus `parent`: the buses behind its bridges get the next numbers,
      and the bus ends up with the last of them as its subordinate number.  `above` are the
      bridges on the way here. */
  method ScanBridges(parent: Link, bs: seq<Bridge>, ghost above: set<Link>)
    requires Distinct(Buses(bs)) && parent !in Links(Buses(bs))
    requires above !! Links(Buses(bs)) && AllOpen(above, parent.subordinate)
    modifies parent`subordinate, Links(Buses(bs))
    ensures parent.subordinate == old(parent.subordinate) + |Buses(bs)| && AllOpen(above, parent.subordinate)
    ensures AllHave(Buses(bs), Assign(bs, parent.secondary, old(parent.subordinate)))
    decreases bs, 1
  {
    hide Distinct, Has, BusesOf, AssignOne, AllHave, Buses, Assign, AllOpen, Links;
    ghost var done, ns, own := [], [], parent.secondary;
    assert bs[0..] == bs;
    NoneHave();
    for i := 0 to |bs|
      invariant Buses(bs) == done + Buses(bs[i..]) && parent.secondary == own
      invariant Assign(bs, own, old(parent.subordinate)) == ns + Assign(bs[i..], own, parent.subordinate)
      invariant AllHave(done, ns) && parent.subordinate == old(parent.subordinate) + |done|
      invariant AllOpen(above, parent.subordinate)
    {
      ghost var mine, last := BusesOf(bs[i]), parent.subordinate;
      ghost var given := AssignOne(bs[i], own, last);
      NextBridge(bs, i, own, old(parent.subordinate), last, done, ns);
      if bs[i].enabled {
        DistinctPart(done, mine, Buses(bs[i + 1..]));
        ScanBridge(parent, bs[i], above);
      } else {
        NoBuses(bs[i], own, last);
      }
      HaveMore(done, ns, mine, given);
      done, ns := done + mine, ns + given;
    }
    NoneLeft(bs, own, parent.subordinate);
    assert done + [] == done && ns + [] == ns;
  }

  lemma NoneLeft(bs: seq<Bridge>, own: nat, last: nat)
    ensures Buses(bs[|bs|..]) == [] && Assign(bs[|bs|..], own, last) == []
  {}

  lemma NextBridge(bs: seq<Bridge>, i: nat, own: nat, first: nat, last: nat, done: seq<Link>, ns: seq<Numbers>)
    requires i < |bs| && Buses(bs) == done + Buses(bs[i..])
    requires Assign(bs, own, first) == ns + Assign(bs[i..], own, last)
    ensures Buses(bs) == (done + BusesOf(bs[i])) + Buses(bs[i + 1..])
    ensures Buses(bs) == done + (BusesOf(bs[i]) + Buses(bs[i + 1..]))
    ensures Assign(bs, own, first)
            == (ns + AssignOne(bs[i], own, last)) + Assign(bs[i + 1..], own, last + |BusesOf(bs[i])|)
  {
    assert bs[i..][0] == bs[i] && bs[i..][1..] == bs[i + 1..];
  }

  lemma NoneHave()
    ensures AllHave([], [])
  {}

  lemma NoBuses(b: Bridge, own: nat, last: nat)
    requires !b.enabled
    ensures BusesOf(b) == [] && AssignOne(b, own, last) == [] && AllHave(BusesOf(b), AssignOne(b, own, last))
  {}

  lemma DistinctPart(a: seq<Link>, b: seq<Link>, c: seq<Link>)
    requires Distinct(a + (b + c))
    ensures Distinct(b) && Links(a) !! Links(b) && Links(a) + Links(b) <= Links(a + (b + c))
    ensures forall x | x in Links(a) :: x in a
  {
    var s := a + (b + c);
    assert forall i | 0 <= i < |b| :: s[|a| + i] == b[i];
    assert forall i | 0 <= i < |a| :: s[i] == a[i];
  }

  lemma BehindBridge(b: Bridge)
    requires b.enabled && Distinct(BusesOf(b))
    ensures BusesOf(b) == [b.link] + Buses(b.children) && Distinct(Buses(b.children))
    ensures Links(BusesOf(b)) == Links(Buses(b.children)) + {b.link} && b.link !in Links(Buses(b.children))
  {
    var s, t := BusesOf(b), Buses(b.children);
    assert forall i | 0 <= i < |t| :: s[i + 1] == t[i];
    assert s[0] == b.link;
  }

  /** The numbers of a bridge and of what is behind it. */
  lemma HaveOne(b: Bridge, own: nat, last: nat)
    requires b.enabled
    requires AllHave(Buses(b.children), Assign(b.children, last + 1, last + 1))
    requires Has(b.link, Numbers(own, last + 1, last + |BusesOf(b)|))
    ensures AllHave(BusesOf(b), AssignOne(b, own, last))
  {
    hide Has;
  }

  lemma HaveMore(a: seq<Link>, ns: seq<Numbers>, b: seq<Link>, ms: seq<Numbers>)
    requires AllHave(a, ns) && AllHave(b, ms)
    ensures AllHave(a + b, ns + ms)
  {
    hide Has;
  }

  /** `do_pci_scan_bridge`, with both routing steps of `pci_bridge_route`. */
  method ScanBridge(parent: Link, b: Bridge, ghost above: set<Link>)
    requires b.enabled && Distinct(BusesOf(b)) && parent !in Links(BusesOf(b))
    requires above !! Links(BusesOf(b)) && AllOpen(above, parent.subordinate)
    modifies parent`subordinate, Links(BusesOf(b))
    ensures parent.subordinate == old(parent.subordinate) + |BusesOf(b)| && AllOpen(above, parent.subordinate)
    ensures AllHave(BusesOf(b), AssignOne(b, parent.secondary, old(parent.subordinate)))
    decreases b, 0
  {
    hide Distinct, BusesOf, AssignOne, Buses, Assign, AllHave, Links;
    BehindBridge(b);
    ghost var own, last := parent.secondary, parent.subordinate;
    var link := b.link;
    // open the bridge for all numbers from the next one on
    link.secondary := parent.subordinate + 1;
    link.subordinate := link.secondary;
    link.register := Numbers(parent.secondary % 256, link.secondary % 256, 0xff);
    ScanBridges(link, b.children, above + {link});
    // close it behind the last number used
    link.register := Numbers(parent.secondary % 256, link.secondary % 256, link.subordinate % 256);
    parent.subordinate := link.subordinate;
    HaveOne(b, own, last);
  }
}
