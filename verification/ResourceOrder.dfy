/** The order in which the resource allocator visits the resources of one bus.

    `pick_largest_resource` keeps no sorted list: each call rescans the bus for the
    best successor of the resource returned last.  `Best` is one such scan and `Order`
    the sequence of results of repeated scans; the theorem is that this is a stable
    sort of the non-fixed resources. */
module ResourceOrder {
  import opened Wrappers

  /** What the iterator looks at: both passes leave these three unchanged. */
  datatype Key = Key(align: nat, size: nat, fixed: bool)

  /** Larger alignment first, then larger size, then traversal order. */
  predicate Precedes(keys: seq<Key>, i: nat, j: nat)
    requires i < |keys| && j < |keys|
  {
    || keys[i].align > keys[j].align
    || (keys[i].align == keys[j].align && keys[i].size > keys[j].size)
    || (keys[i].align == keys[j].align && keys[i].size == keys[j].size && i < j)
  }

  predicate ValidLast(keys: seq<Key>, last: Option<nat>) {
    last.Some? ==> last.value < |keys|
  }

  /** Candidate `j` may be returned after `last`. */
  predicate Eligible(keys: seq<Key>, last: Option<nat>, j: nat)
    requires ValidLast(keys, last) && j < |keys|
  {
    !keys[j].fixed && (last.Some? ==> Precedes(keys, last.value, j))
  }

  /** The running result of one scan after the first `n` candidates. */
  function Best(keys: seq<Key>, last: Option<nat>, n: nat): (r: Option<nat>)
    requires ValidLast(keys, last) && n <= |keys|
    ensures r.Some? ==> r.value < n && Eligible(keys, last, r.value)
  {
    if n == 0 then None
    else
      var r := Best(keys, last, n - 1);
      var j := n - 1;
      if Eligible(keys, last, j) &&
         (r.None? || keys[r.value].align < keys[j].align ||
          (keys[r.value].align == keys[j].align && keys[r.value].size < keys[j].size))
      then Some(j) else r
  }

  /** A scan finds a candidate whenever there is one, and then the first in the order. */
  lemma {:induction false} BestPrecedesAll(keys: seq<Key>, last: Option<nat>, n: nat)
    requires ValidLast(keys, last) && n <= |keys|
    ensures var r := Best(keys, last, n);
            forall j: nat | j < n && Eligible(keys, last, j) ::
              r.Some? && (j == r.value || Precedes(keys, r.value, j))
  {
    if n > 0 { BestPrecedesAll(keys, last, n - 1); }
  }

  ghost function Remaining(keys: seq<Key>, last: Option<nat>): set<nat>
    requires ValidLast(keys, last)
  {
    set j: nat | j < |keys| && Eligible(keys, last, j)
  }

  /** What repeated scans return, starting after `last`. */
  ghost function Order(keys: seq<Key>, last: Option<nat>): (o: seq<nat>)
    requires ValidLast(keys, last)
    ensures forall k | 0 <= k < |o| :: o[k] < |keys|
    decreases Remaining(keys, last)
  {
    var r := Best(keys, last, |keys|);
    if r.None? then []
    else
      assert r.value in Remaining(keys, last) && r.value !in Remaining(keys, r);
      [r.value] + Order(keys, r)
  }

  lemma {:induction false} OrderAfter(keys: seq<Key>, last: Option<nat>)
    requires ValidLast(keys, last)
    ensures var o := Order(keys, last);
            && (forall a, b | 0 <= a < b < |o| :: Precedes(keys, o[a], o[b]))
            && (forall a | 0 <= a < |o| :: Eligible(keys, last, o[a]))
            && (forall j: nat | j < |keys| && Eligible(keys, last, j) :: j in o)
    decreases Remaining(keys, last)
  {
    var r := Best(keys, last, |keys|);
    BestPrecedesAll(keys, last, |keys|);
    if r.Some? {
      assert r.value in Remaining(keys, last) && r.value !in Remaining(keys, r);
      OrderAfter(keys, r);
      var o, rest := Order(keys, last), Order(keys, r);
      forall j: nat | j < |keys| && Eligible(keys, last, j) ensures j in o {
        if j != r.value { assert Eligible(keys, r, j); assert j in rest; }
        assert o[0] == r.value;
      }
    }
  }

  ghost predicate NoRepeats(o: seq<nat>) {
    forall a, b | 0 <= a < b < |o| :: o[a] != o[b]
  }

  /** Starting from nothing, repeated scans return every non-fixed candidate exactly
      once, by decreasing alignment, then decreasing size, ties in traversal order. */
  lemma OrderIsStableSort(keys: seq<Key>)
    ensures var o := Order(keys, None);
            && (forall a, b | 0 <= a < b < |o| :: Precedes(keys, o[a], o[b]))
            && (forall a, b | 0 <= a < b < |o| ::
                  var k, l := keys[o[a]], keys[o[b]];
                  && k.align >= l.align && (k.align == l.align ==> k.size >= l.size)
                  && (k.align == l.align && k.size == l.size ==> o[a] < o[b]))
            && NoRepeats(o)
            && (forall j: nat | j < |keys| :: j in o <==> !keys[j].fixed)
  {
    OrderAfter(keys, None);
    var o := Order(keys, None);
    assert forall a, b | 0 <= a < b < |o| :: Precedes(keys, o[a], o[b]);
  }

  /** A list with these two properties is the one the scans produce, so nothing else
      about the resources (base, limit, assigned, stored) can change the order. */
  lemma {:induction false} OrderIsUnique(keys: seq<Key>, last: Option<nat>, o: seq<nat>)
    requires ValidLast(keys, last)
    requires forall k | 0 <= k < |o| :: o[k] < |keys| && Eligible(keys, last, o[k])
    requires forall a, b | 0 <= a < b < |o| :: Precedes(keys, o[a], o[b])
    requires forall j: nat | j < |keys| && Eligible(keys, last, j) :: j in o
    ensures o == Order(keys, last)
    decreases |o|
  {
    var r := Best(keys, last, |keys|);
    BestPrecedesAll(keys, last, |keys|);
    if o != [] {
      assert Eligible(keys, last, o[0]);
      var k :| 0 <= k < |o| && o[k] == r.value;
      assert k == 0;
      forall j: nat | j < |keys| && Eligible(keys, r, j) ensures j in o[1..] {
        assert Eligible(keys, last, j);
        var m :| 0 <= m < |o| && o[m] == j;
        assert m >= 1 && o[1..][m - 1] == j;
      }
      OrderIsUnique(keys, r, o[1..]);
    } else {
      assert forall j: nat | j < |keys| :: Eligible(keys, last, j) ==> j in o;
    }
  }

  /** One scan advances one place along the order, and finds nothing at its end. */
  lemma OrderStep(keys: seq<Key>, ord: seq<nat>, m: nat, l: Option<nat>)
    requires ValidLast(keys, l) && m <= |ord| && ord[m..] == Order(keys, l)
    ensures var r := Best(keys, l, |keys|);
            && (r.None? <==> m == |ord|)
            && (r.Some? ==> ord[m] == r.value && ord[m + 1..] == Order(keys, r))
  {
    var r := Best(keys, l, |keys|);
    if r.Some? {
      assert ord[m] == ord[m..][0] && ord[m + 1..] == ord[m..][1..];
    }
  }
}
