/** The sort of the PCI device list.  The right half of each step keeps the pivot, and is
    the whole list again when the pivot is the least element; so the recursion ends exactly
    when all keys are distinct. */
module Quicksort {

  datatype Device = Device(device: nat, id: nat)

  ghost predicate Sorted(s: seq<Device>) {
    forall i, j | 0 <= i < j < |s| :: s[i].device <= s[j].device
  }

  /** No two elements have the same key. */
  ghost predicate Distinct(m: multiset<Device>) {
    (forall x | x in m :: m[x] == 1) && forall x, y | x in m && y in m && x != y :: x.device != y.device
  }

  predicate LeastFirst(s: seq<Device>) {
    s != [] && forall k | 0 <= k < |s| :: s[0].device <= s[k].device
  }

  /** The depth of recursion that is enough for distinct keys: two for each element, less
      one if the least element is in front already. */
  function Enough(s: seq<Device>): int {
    2 * |s| - if LeastFirst(s) then 1 else 0
  }

  ghost predicate Below(s: seq<Device>, key: nat) { forall k | 0 <= k < |s| :: s[k].device < key }

  ghost predicate NotBelow(s: seq<Device>, key: nat) { forall k | 0 <= k < |s| :: key <= s[k].device }

  method Swap(a: array<Device>, i: nat, j: nat)
    requires i < a.Length && j < a.Length
    modifies a
    ensures a[i] == old(a[j]) && a[j] == old(a[i])
    ensures forall k | 0 <= k < a.Length && k != i && k != j :: a[k] == old(a[k])
    ensures multiset(a[..]) == multiset(old(a[..]))
  {
    a[i], a[j] := a[j], a[i];
  }

  /** Everything outside the segment is as before, and the segment is rearranged. */
  ghost predicate Rearranged(was: seq<Device>, now: seq<Device>, lo: nat, hi: nat) {
    lo <= hi <= |was| == |now| && now[..lo] == was[..lo] && now[hi..] == was[hi..]
    && multiset(now[lo..hi]) == multiset(was[lo..hi])
  }

  lemma Cancel(a: multiset<Device>, b: multiset<Device>, c: multiset<Device>)
    requires a + c == b + c
    ensures a == b
  {
    forall x ensures a[x] == b[x] { assert (a + c)[x] == a[x] + c[x] && (b + c)[x] == b[x] + c[x]; }
  }

  lemma Parts(s: seq<Device>, lo: nat, hi: nat)
    requires lo <= hi <= |s|
    ensures multiset(s) == multiset(s[lo..hi]) + (multiset(s[..lo]) + multiset(s[hi..]))
  {
    assert s == s[..lo] + s[lo..hi] + s[hi..];
  }

  lemma SegmentPermuted(was: seq<Device>, now: seq<Device>, lo: nat, hi: nat)
    requires lo <= hi <= |was| == |now| && multiset(was) == multiset(now)
    requires now[..lo] == was[..lo] && now[hi..] == was[hi..]
    ensures Rearranged(was, now, lo, hi)
  {
    Parts(was, lo, hi);
    Parts(now, lo, hi);
    Cancel(multiset(now[lo..hi]), multiset(was[lo..hi]), multiset(was[..lo]) + multiset(was[hi..]));
  }

  /** Rearranging a part of a segment rearranges the segment. */
  lemma Widen(was: seq<Device>, now: seq<Device>, p: nat, q: nat, lo: nat, hi: nat)
    requires Rearranged(was, now, p, q) && lo <= p && q <= hi <= |was|
    ensures Rearranged(was, now, lo, hi)
  {
    Parts(was, p, q);
    Parts(now, p, q);
    assert now[..lo] == now[..p][..lo] && was[..lo] == was[..p][..lo];
    assert now[hi..] == now[q..][hi - q..] && was[hi..] == was[q..][hi - q..];
    SegmentPermuted(was, now, lo, hi);
  }

  lemma Then(was: seq<Device>, mid: seq<Device>, now: seq<Device>, lo: nat, hi: nat)
    requires Rearranged(was, mid, lo, hi) && Rearranged(mid, now, lo, hi)
    ensures Rearranged(was, now, lo, hi)
  {}

  /** The part above is untouched, or the part below. */
  lemma Untouched(was: seq<Device>, now: seq<Device>, p: nat, q: nat, r: nat)
    requires Rearranged(was, now, p, q) && r <= |was|
    ensures q <= r ==> now[q..r] == was[q..r]
    ensures r <= p ==> now[r..p] == was[r..p]
  {
    if q <= r { assert now[q..r] == now[q..][..r - q] && was[q..r] == was[q..][..r - q]; }
    if r <= p { assert now[r..p] == now[..p][r..] && was[r..p] == was[..p][r..]; }
  }

  /** The pivot, from the middle, ends up at `index`, with the smaller keys before it. */
  ghost predicate Partitioned(was: seq<Device>, now: seq<Device>, lo: nat, mid: nat, hi: nat) {
    && lo <= mid < hi <= |was| == |now| && multiset(was) == multiset(now) && now[mid] == was[lo + (hi - lo) / 2]
    && (forall k | lo <= k < mid :: now[k].device < now[mid].device)
    && (forall k | mid <= k < hi :: now[mid].device <= now[k].device)
    && (forall k | 0 <= k < |now| && !(lo <= k < hi) :: now[k] == was[k])
  }

  method Partition(a: array<Device>, lo: nat, len: nat) returns (index: nat)
    requires 2 <= len && lo + len <= a.Length
    modifies a
    ensures index < len && Partitioned(old(a[..]), a[..], lo, lo + index, lo + len)
  {
    var last := lo + len - 1;
    var val := a[lo + len / 2].device;
    Swap(a, lo + len / 2, last);
    index := MoveSmaller(a, lo, last, val);
    Swap(a, lo + index, last);
  }

  /** The loop: keys below `val` are swapped to the front of `lo..last`. */
  method MoveSmaller(a: array<Device>, lo: nat, last: nat, val: nat) returns (index: nat)
    requires lo <= last < a.Length
    modifies a
    ensures lo + index <= last && multiset(a[..]) == multiset(old(a[..]))
    ensures forall k | 0 <= k < a.Length && !(lo <= k < last) :: a[k] == old(a[k])
    ensures forall k | lo <= k < lo + index :: a[k].device < val
    ensures forall k | lo + index <= k < last :: val <= a[k].device
  {
    index := 0;
    for i := 0 to last - lo
      invariant index <= i && multiset(a[..]) == multiset(old(a[..]))
      invariant forall k | 0 <= k < a.Length && !(lo <= k < last) :: a[k] == old(a[k])
      invariant forall k | lo <= k < lo + index :: a[k].device < val
      invariant forall k | lo + index <= k < lo + i :: val <= a[k].device
    {
      if a[lo + i].device < val {
        Swap(a, lo + i, lo + index);
        index := index + 1;
      }
    }
  }

  lemma PartitionMeans(was: seq<Device>, now: seq<Device>, lo: nat, mid: nat, hi: nat)
    requires Partitioned(was, now, lo, mid, hi)
    ensures Rearranged(was, now, lo, hi) && Below(now[lo..mid], now[mid].device)
            && NotBelow(now[mid..hi], now[mid].device)
  {
    hide Below, NotBelow;
    SegmentPermuted(was, now, lo, hi);
    SegmentKeys(now, lo, mid, now[mid].device);
    SegmentKeys(now, mid, hi, now[mid].device);
  }

  lemma SegmentKeys(s: seq<Device>, p: nat, q: nat, key: nat)
    requires p <= q <= |s|
    ensures (forall k | p <= k < q :: s[k].device < key) ==> Below(s[p..q], key)
    ensures (forall k | p <= k < q :: key <= s[k].device) ==> NotBelow(s[p..q], key)
  {}

  lemma EnoughPositive(s: seq<Device>)
    requires |s| >= 2
    ensures Enough(s) > 0
  {}

  // ----- keys of a split segment

  lemma MemberOf(s: seq<Device>, x: Device)
    ensures x in multiset(s) <==> exists k :: 0 <= k < |s| && s[k] == x
  {}

  /** The two sides are distinct exactly when the whole is: equal keys go to the same side. */
  lemma DistinctSplit(x: multiset<Device>, y: multiset<Device>, key: nat)
    requires (forall d | d in x :: d.device < key) && forall d | d in y :: key <= d.device
    ensures Distinct(x + y) <==> Distinct(x) && Distinct(y)
  {
    if Distinct(x + y) {
      forall d | d in x ensures x[d] == 1 { assert (x + y)[d] == x[d] + y[d] == 1; }
      forall d | d in y ensures y[d] == 1 { assert (x + y)[d] == x[d] + y[d] == 1; }
      assert forall d | d in x || d in y :: d in x + y;
    }
    if Distinct(x) && Distinct(y) {
      forall d | d in x + y ensures (x + y)[d] == 1 {
        assert (x + y)[d] == x[d] + y[d];
        assert d in x ==> d !in y;
      }
    }
  }

  lemma SortedJoin(l: seq<Device>, r: seq<Device>, key: nat)
    requires Below(l, key) && NotBelow(r, key) && Sorted(l) && Sorted(r)
    ensures Sorted(l + r)
  {}

  lemma BelowPermuted(s: seq<Device>, t: seq<Device>, key: nat)
    requires multiset(s) == multiset(t)
    ensures Below(s, key) ==> Below(t, key)
    ensures NotBelow(s, key) ==> NotBelow(t, key)
  {
    forall k | 0 <= k < |t| ensures exists i :: 0 <= i < |s| && s[i] == t[k] {
      assert t[k] in multiset(t);
      MemberOf(s, t[k]);
    }
  }

  lemma ShortDistinct(s: seq<Device>)
    requires |s| <= 1
    ensures Distinct(multiset(s)) && Sorted(s)
  {
    if |s| == 1 { assert s == [s[0]]; }
  }

  /** With distinct keys a pivot other than the first element is not the least one, if that
      is in front. */
  lemma LeastMovesOn(was: seq<Device>, now: seq<Device>, pivot: Device)
    requires 2 <= |was| && multiset(was) == multiset(now) && pivot == was[|was| / 2]
    requires Distinct(multiset(was)) && LeastFirst(was)
    ensures !NotBelow(now, pivot.device)
  {
    DistinctApart(was, 0, |was| / 2);
    assert was[0] in multiset(now);
    MemberOf(now, was[0]);
  }

  lemma DistinctApart(s: seq<Device>, i: nat, j: nat)
    requires Distinct(multiset(s)) && i < j < |s|
    ensures s[i].device != s[j].device
  {
    var x := s[i];
    assert s == s[..i] + [x] + s[i + 1..];
    assert multiset(s) == multiset(s[..i]) + multiset{x} + multiset(s[i + 1..]);
    assert s[j] in s[i + 1..] && x in multiset(s) && s[j] in multiset(s);
    assert multiset(s)[x] == 1;
    assert x !in multiset(s[i + 1..]);
  }

  ghost predicate SegmentSorted(s: seq<Device>, lo: nat, hi: nat) {
    lo <= hi <= |s| && Sorted(s[lo..hi])
  }

  ghost predicate SegmentDistinct(s: seq<Device>, lo: nat, hi: nat) {
    lo <= hi <= |s| && Distinct(multiset(s[lo..hi]))
  }

  ghost function SegmentEnough(s: seq<Device>, lo: nat, hi: nat): int {
    if lo <= hi <= |s| then Enough(s[lo..hi]) else 0
  }

  /** `quicksort`.  It sorts if it comes back, and with unlimited depth it comes back exactly
      when all keys are distinct: two equal keys are never separated. */
  method Sort(a: array<Device>, lo: nat, len: nat, depth: nat) returns (done: bool)
    requires lo + len <= a.Length
    modifies a
    ensures Rearranged(old(a[..]), a[..], lo, lo + len)
    ensures done ==> SegmentSorted(a[..], lo, lo + len) && SegmentDistinct(old(a[..]), lo, lo + len)
    ensures SegmentDistinct(old(a[..]), lo, lo + len) && SegmentEnough(old(a[..]), lo, lo + len) <= depth ==> done
    decreases depth
  {
    hide SegmentSorted, SegmentDistinct, SegmentEnough, Rearranged, Partitioned;
    ghost var w0, hi := a[..], lo + len;
    Short(w0, lo, hi);
    if len <= 1 {
      return true;
    }
    if depth == 0 {
      return false;
    }
    var index := Partition(a, lo, len);
    ghost var w1, mid := a[..], lo + index;
    Halves(w0, w1, lo, mid, hi);
    done := Sort(a, lo, index, depth - 1);
    ghost var w2 := a[..];
    LeftSorted(w0, w1, w2, lo, mid, hi);
    if done {
      done := Sort(a, lo + index, len - index, depth - 1);
      RightSorted(w0, w1, w2, a[..], lo, mid, hi);
    }
  }

  lemma Short(s: seq<Device>, lo: nat, hi: nat)
    requires lo <= hi <= |s|
    ensures Rearranged(s, s, lo, hi)
    ensures hi - lo <= 1 ==> SegmentSorted(s, lo, hi) && SegmentDistinct(s, lo, hi)
    ensures hi - lo >= 2 ==> SegmentEnough(s, lo, hi) > 0
  {
    if hi - lo <= 1 { ShortDistinct(s[lo..hi]); } else { EnoughPositive(s[lo..hi]); }
  }

  lemma IsMiddle(was: seq<Device>, now: seq<Device>, lo: nat, mid: nat, hi: nat)
    requires Partitioned(was, now, lo, mid, hi)
    ensures now[mid] == was[lo + (hi - lo) / 2]
  {}

  /** What the partition means for keys and depth. */
  lemma Halves(w0: seq<Device>, w1: seq<Device>, lo: nat, mid: nat, hi: nat)
    requires lo + 2 <= hi && Partitioned(w0, w1, lo, mid, hi)
    ensures Rearranged(w0, w1, lo, hi)
    ensures SegmentDistinct(w0, lo, hi) <==> SegmentDistinct(w1, lo, mid) && SegmentDistinct(w1, mid, hi)
    ensures SegmentEnough(w1, lo, mid) < SegmentEnough(w0, lo, hi)
    ensures SegmentDistinct(w0, lo, hi) ==> SegmentEnough(w1, mid, hi) < SegmentEnough(w0, lo, hi)
  {
    hide Distinct;
    PartitionMeans(w0, w1, lo, mid, hi);
    IsMiddle(w0, w1, lo, mid, hi);
    hide Partitioned;
    var whole, l, r := w1[lo..hi], w1[lo..mid], w1[mid..hi];
    assert whole == l + r;
    BothSides(l, r, w1[mid].device);
    if mid == lo && SegmentDistinct(w0, lo, hi) {
      assert whole == r && LeastFirst(r);
      if LeastFirst(w0[lo..hi]) { LeastMovesOn(w0[lo..hi], whole, w1[mid]); }
    }
  }

  lemma BothSides(l: seq<Device>, r: seq<Device>, key: nat)
    requires Below(l, key) && NotBelow(r, key)
    ensures Distinct(multiset(l + r)) <==> Distinct(multiset(l)) && Distinct(multiset(r))
  {
    hide Distinct;
    forall d | d in multiset(l) ensures d.device < key { MemberOf(l, d); }
    forall d | d in multiset(r) ensures key <= d.device { MemberOf(r, d); }
    DistinctSplit(multiset(l), multiset(r), key);
    assert multiset(l + r) == multiset(l) + multiset(r);
  }

  lemma LeftSorted(w0: seq<Device>, w1: seq<Device>, w2: seq<Device>, lo: nat, mid: nat, hi: nat)
    requires lo <= mid < hi && Rearranged(w0, w1, lo, hi) && Rearranged(w1, w2, lo, mid)
    ensures Rearranged(w0, w2, lo, hi)
    ensures SegmentDistinct(w2, mid, hi) <==> SegmentDistinct(w1, mid, hi)
    ensures SegmentEnough(w2, mid, hi) == SegmentEnough(w1, mid, hi)
  {
    hide Distinct, Enough;
    Widen(w1, w2, lo, mid, lo, hi);
    Then(w0, w1, w2, lo, hi);
    Untouched(w1, w2, lo, mid, hi);
  }

  lemma RightSorted(w0: seq<Device>, w1: seq<Device>, w2: seq<Device>, w3: seq<Device>, lo: nat, mid: nat, hi: nat)
    requires lo + 2 <= hi && Partitioned(w0, w1, lo, mid, hi) && Rearranged(w0, w2, lo, hi)
             && Rearranged(w1, w2, lo, mid)
    requires Rearranged(w2, w3, mid, hi)
    ensures Rearranged(w0, w3, lo, hi)
    ensures SegmentSorted(w2, lo, mid) && SegmentSorted(w3, mid, hi) ==> SegmentSorted(w3, lo, hi)
  {
    hide Sorted, Below, NotBelow;
    PartitionMeans(w0, w1, lo, mid, hi);
    hide Partitioned;
    Widen(w2, w3, mid, hi, lo, hi);
    Then(w0, w2, w3, lo, hi);
    Untouched(w1, w2, lo, mid, hi);
    Untouched(w2, w3, mid, hi, lo);
    assert w3[lo..hi] == w3[lo..mid] + w3[mid..hi];
    JoinHalves(w1[lo..mid], w3[lo..mid], w1[mid..hi], w3[mid..hi], w1[mid].device);
  }

  lemma JoinHalves(l: seq<Device>, l': seq<Device>, r: seq<Device>, r': seq<Device>, key: nat)
    requires multiset(l) == multiset(l') && multiset(r) == multiset(r') && Below(l, key) && NotBelow(r, key)
    ensures Sorted(l') && Sorted(r') ==> Sorted(l' + r')
  {
    hide Sorted, Below, NotBelow;
    BelowPermuted(l, l', key);
    BelowPermuted(r, r', key);
    if Sorted(l') && Sorted(r') { SortedJoin(l', r', key); }
  }
}
