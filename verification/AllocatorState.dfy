/** The changing fields of all resources as one value, so that both passes of the
    allocator can be specified as functions from state to state. */
module AllocatorState {
  import opened ResourceOrder
  import opened ResourceTree

  /** The fields of a resource that allocation changes. */
  datatype Attr = Attr(base: nat, size: nat, limit: nat, align: nat, isAssigned: bool, isStored: bool)

  type State = map<Resource, Attr>

  ghost function Get(s: State, r: Resource): Attr {
    if r in s then s[r] else Attr(0, 0, 0, 0, false, false)
  }

  /** The objects of `dom` have exactly the fields recorded in `s`. */
  ghost predicate Holds(dom: set<Resource>, s: State)
    reads dom
  {
    forall r | r in dom :: Attr(r.base, r.size, r.limit, r.align, r.isAssigned, r.isStored) == Get(s, r)
  }

  ghost function KeysIn(rs: seq<Resource>, s: State): (keys: seq<Key>)
    ensures |keys| == |rs|
    ensures forall i | 0 <= i < |rs| :: keys[i] == Key(Get(s, rs[i]).align, Get(s, rs[i]).size, rs[i].fixed)
  {
    seq(|rs|, i requires 0 <= i < |rs| => Key(Get(s, rs[i]).align, Get(s, rs[i]).size, rs[i].fixed))
  }

  ghost function LimitsIn(rs: seq<Resource>, s: State): (limits: seq<nat>)
    ensures |limits| == |rs|
    ensures forall i | 0 <= i < |rs| :: limits[i] == Get(s, rs[i]).limit
  {
    seq(|rs|, i requires 0 <= i < |rs| => Get(s, rs[i]).limit)
  }

  lemma KeysHold(rs: seq<Resource>, dom: set<Resource>, s: State)
    requires Holds(dom, s) && ToSet(rs) <= dom
    ensures Keys(rs) == KeysIn(rs, s)
  {
    forall i | 0 <= i < |rs| ensures Keys(rs)[i] == KeysIn(rs, s)[i] {
      assert rs[i] in ToSet(rs);
    }
  }

  lemma SameKeys(rs: seq<Resource>, s: State, t: State)
    requires forall i | 0 <= i < |rs| ::
               Get(s, rs[i]).align == Get(t, rs[i]).align && Get(s, rs[i]).size == Get(t, rs[i]).size
    ensures KeysIn(rs, s) == KeysIn(rs, t)
  {}

  lemma SameLimits(rs: seq<Resource>, s: State, t: State)
    requires forall i | 0 <= i < |rs| :: Get(s, rs[i]).limit == Get(t, rs[i]).limit
    ensures LimitsIn(rs, s) == LimitsIn(rs, t)
  {}

  /** `ord` visits some of the resources of `rs`, none twice. */
  ghost predicate ValidVisit(rs: seq<Resource>, ord: seq<nat>) {
    && Distinct(rs)
    && (forall k | 0 <= k < |ord| :: ord[k] < |rs|)
    && NoRepeats(ord)
  }

  /** `s` and `t` agree on `dom`. */
  ghost predicate Agree(dom: set<Resource>, s: State, t: State) {
    forall r | r in dom :: Get(s, r) == Get(t, r)
  }

  /** `t` differs from `s` at most on `dom`. */
  ghost predicate OnlyChanges(dom: set<Resource>, s: State, t: State) {
    forall r | r in s.Keys + t.Keys && r !in dom :: Get(s, r) == Get(t, r)
  }

  lemma OnlyChangesTrans(d: set<Resource>, e: set<Resource>, s: State, t: State, u: State)
    requires d <= e && OnlyChanges(d, s, t) && OnlyChanges(e, t, u)
    ensures OnlyChanges(e, s, u)
  {
    forall r | r in s.Keys + u.Keys && r !in e ensures Get(s, r) == Get(u, r) {
      assert Get(s, r) == Get(t, r);
      assert Get(t, r) == Get(u, r);
    }
  }

  lemma OnlyChangesRefl(d: set<Resource>, s: State)
    ensures OnlyChanges(d, s, s)
  {}

  lemma OnlyChangesJoin(d: set<Resource>, e: set<Resource>, all: set<Resource>, s: State, t: State, u: State)
    requires d + e <= all && OnlyChanges(d, s, t) && OnlyChanges(e, t, u)
    ensures OnlyChanges(all, s, u)
  {
    OnlyChangesTrans(all, all, s, t, u);
  }

  lemma AgreeApart(dom: set<Resource>, d: set<Resource>, s: State, t: State)
    requires OnlyChanges(d, s, t) && dom !! d
    ensures Agree(dom, s, t)
  {}

  lemma AgreeSym(dom: set<Resource>, s: State, t: State)
    requires Agree(dom, s, t)
    ensures Agree(dom, t, s)
  {}

  lemma Unchanged(d: set<Resource>, s: State, t: State, r: Resource)
    requires OnlyChanges(d, s, t) && r !in d
    ensures Get(s, r) == Get(t, r)
  {}

  predicate IsIo(f: Filter) { f.kind == Io }
}
