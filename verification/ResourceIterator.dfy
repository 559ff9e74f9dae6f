/** `largest_resource`: one rescan of a bus for the successor of the resource returned
    last, with the visitor `pick_largest_resource` and the walk `search_bus_resources`. */
module ResourceIterator {
  import opened Wrappers
  import opened ResourceOrder
  import opened ResourceTree

  /** `last` is the resource at position `l` of the candidates. */
  ghost predicate AtIndex(rs: seq<Resource>, last: Resource?, l: Option<nat>) {
    match l
    case None => last == null
    case Some(i) => i < |rs| && rs[i] == last
  }

  /** The state threaded through one scan (`struct pick_largest_state`).  The ghost fields
      name the candidates of the whole scan, what the iterator sees of them, the position
      of `last`, and how many candidates have been visited. */
  class PickLargestState {
    const last: Resource?
    var result: Resource?
    var seenLast: bool
    ghost const rs: seq<Resource>
    ghost const keys: seq<Key>
    ghost const l: Option<nat>
    ghost var n: nat

    constructor (last: Resource?, ghost rs: seq<Resource>, ghost l: Option<nat>)
      requires AtIndex(rs, last, l)
      ensures this.last == last && this.rs == rs && this.keys == Keys(rs) && this.l == l && n == 0
      ensures Valid()
    {
      this.last, result, seenLast := last, null, false;
      this.rs, this.keys, this.l, n := rs, Keys(rs), l, 0;
    }

    /** After `n` candidates the state is that of `Best`. */
    ghost predicate Valid()
      reads this
    {
      && |keys| == |rs| && n <= |rs|
      && AtIndex(rs, last, l)
      && (seenLast <==> l.Some? && l.value < n)
      && AtIndex(rs, result, Best(keys, l, n))
    }

    method PickLargestResource(r: Resource)
      requires Valid() && n < |rs| && rs[n] == r && Distinct(rs) && keys == Keys(rs)
      modifies this
      ensures Valid() && n == old(n) + 1
    {
      ghost var best := Best(keys, l, n);
      n := n + 1;
      assert (r == last) <==> l == Some(n - 1);
      assert Best(keys, l, n) == if !Eligible(keys, l, n - 1) then best
                                 else if result == null || result.align < r.align
                                         || (result.align == r.align && result.size < r.size) then Some(n - 1)
                                 else best;
      if r == last {
        seenLast := true;
        return;
      }
      if r.fixed {
        return;
      }
      if last != null && (last.align < r.align
                          || (last.align == r.align && last.size < r.size)
                          || (last.align == r.align && last.size == r.size && !seenLast)) {
        return;
      }
      if result == null || result.align < r.align || (result.align == r.align && result.size < r.size) {
        result := r;
      }
    }

    /** The next candidates to visit are `xs`. */
    ghost predicate Next(xs: seq<Resource>)
      reads this`n
    {
      NextFrom(n, xs)
    }

    ghost predicate NextFrom(m: nat, xs: seq<Resource>) {
      m + |xs| <= |rs| && forall k: nat | k < |xs| :: rs[m + k] == xs[k]
    }

    method SearchBusResources(bus: Bus, f: Filter)
      requires Valid() && Distinct(rs) && keys == Keys(rs)
      requires Next(BusResources(bus, f))
      modifies this
      ensures Valid() && n == old(n) + |BusResources(bus, f)|
      decreases bus
    {
      hide Best, Keys, Distinct, NextFrom, DeviceResources;
      ghost var end := n + |BusResources(bus, f)|;
      ghost var todo := ChildrenResources(bus, 0, f);
      for i := 0 to |bus.children|
        invariant Valid() && keys == Keys(rs)
        invariant todo == ChildrenResources(bus, i, f) && Next(todo) && n + |todo| == end
      {
        var dev := bus.children[i];
        ghost var rest := ChildrenResources(bus, i + 1, f);
        if dev.enabled {
          ghost var mine := DeviceResources(dev, 0, f);
          assert todo == mine + rest;
          NextSplit(n, mine, rest);
          SearchDevice(dev, f);
        } else {
          assert todo == rest;
        }
        todo := rest;
      }
    }

    method SearchDevice(dev: Device, f: Filter)
      requires Valid() && Distinct(rs) && keys == Keys(rs)
      requires Next(DeviceResources(dev, 0, f))
      modifies this
      ensures Valid() && n == old(n) + |DeviceResources(dev, 0, f)|
      decreases dev, 1
    {
      for j := 0 to |dev.resources|
        invariant Valid() && keys == Keys(rs)
        invariant n + |DeviceResources(dev, j, f)| == old(n) + |DeviceResources(dev, 0, f)|
        invariant Next(DeviceResources(dev, j, f))
      {
        var more := SearchResource(dev, j, f);
        if !more {
          break;
        }
      }
    }

    /** One turn of the loop over a device's resources; false if the loop is left. */
    method SearchResource(dev: Device, j: nat, f: Filter) returns (more: bool)
      requires Valid() && Distinct(rs) && keys == Keys(rs) && j < |dev.resources|
      requires Next(DeviceResources(dev, j, f))
      modifies this
      ensures Valid()
      ensures !more ==> n == old(n) + |DeviceResources(dev, j, f)|
      ensures more ==> Next(DeviceResources(dev, j + 1, f))
      ensures more ==> n + |DeviceResources(dev, j + 1, f)| == old(n) + |DeviceResources(dev, j, f)|
      decreases dev, 0
    {
      var r := dev.resources[j];
      ghost var rest := DeviceResources(dev, j + 1, f);
      if !Matches(r, f) {
        return true;
      }
      if r.subtractive {
        var link := FindLink(dev.links, SubtractiveLinkOfIndex(r.index));
        if link.None? {
          return false;
        }
        NextSplit(n, BusResources(dev.links[link.value], f), rest);
        SearchBusResources(dev.links[link.value], f);
        return true;
      }
      NextSplit(n, [r], rest);
      assert rs[n + 0] == [r][0];
      PickLargestResource(r);
      return true;
    }

    lemma NextSplit(m: nat, xs: seq<Resource>, ys: seq<Resource>)
      requires NextFrom(m, xs + ys)
      ensures NextFrom(m, xs) && NextFrom(m + |xs|, ys)
    {
      assert forall k: nat | k < |xs| :: (xs + ys)[k] == xs[k];
      forall k: nat | k < |ys| ensures rs[m + |xs| + k] == ys[k] {
        assert (xs + ys)[|xs| + k] == ys[k];
        assert rs[m + (|xs| + k)] == ys[k];
      }
    }
  }

  /** The successor of `last` among the resources of the bus, or null at the end. */
  method LargestResource(bus: Bus, last: Resource?, f: Filter, ghost l: Option<nat>) returns (next: Resource?)
    requires Distinct(BusResources(bus, f)) && AtIndex(BusResources(bus, f), last, l)
    ensures AtIndex(BusResources(bus, f), next, Best(Keys(BusResources(bus, f)), l, |BusResources(bus, f)|))
  {
    ghost var rs := BusResources(bus, f);
    var state := new PickLargestState(last, rs, l);
    assert state.NextFrom(0, rs);
    state.SearchBusResources(bus, f);
    assert state.n == |rs| && Keys(rs) == state.keys;
    next := state.result;
  }
}
