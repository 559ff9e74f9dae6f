/** What the state of the LZMA decoder means: the state number tells how the last packets
    went, the four distances are those used last, and the output is what a history of
    literals and copies makes it. */
module LzmaHistory {
  import opened Wrappers
  import opened PowersOfTwo
  import opened LzmaRange
  import opened LzmaPackets
  import opened LzmaStream

  // ----- the state number

  /** How many literals the list ends with. */
  function Literals(ps: seq<Packet>): (n: nat)
    ensures n <= |ps|
    ensures forall k | |ps| - n <= k < |ps| :: ps[k].Literal?
    ensures n < |ps| ==> !ps[|ps| - n - 1].Literal?
  {
    if ps == [] || !ps[|ps| - 1].Literal? then 0 else 1 + Literals(ps[..|ps| - 1])
  }

  lemma {:induction false} ReplayLast(lz: Lz, ps: seq<Packet>, limit: nat)
    requires ps != [] && Replay(lz, ps, limit).Some?
    ensures var before := Replay(lz, ps[..|ps| - 1], limit);
            before.Some? && |before.value.out| < limit
              && Replay(lz, ps, limit) == Apply(before.value, ps[|ps| - 1], limit)
    decreases |ps|
  {
    hide Apply;
    var n := |ps| - 1;
    if n > 0 {
      var next := Apply(lz, ps[0], limit).value;
      ReplayLast(next, ps[1..], limit);
      assert ps[1..][..n - 1] == ps[..n][1..] && ps[..n][0] == ps[0];
    } else {
      assert ps[..0] == [] && ps[1..] == [];
    }
  }

  /** The number says how many literals have come since the last packet of another kind, up
      to three, which kind that was, and whether it followed a literal. */
  lemma {:induction false} StateTells(ps: seq<Packet>, limit: nat)
    requires Replay(START, ps, limit).Some?
    ensures var s, n, k := Replay(START, ps, limit).value.state, |ps|, Literals(ps);
            && (s < 7 <==> ps == [] || ps[n - 1].Literal?)
            && (s == 0 <==> k == n || k >= 3)
            && (1 <= s <= 3 <==> k < n && k == 2)
            && (4 <= s <= 6 <==> k < n && k == 1)
            && (k < n ==>
                  var p, follows := ps[n - k - 1], n - k - 1 > 0 && !ps[n - k - 2].Literal?;
                  && (s == 7 <==> k == 0 && p.Match? && !follows)
                  && (s == 8 <==> k == 0 && p.Rep? && !follows)
                  && (s == 9 <==> k == 0 && p.ShortRep? && !follows)
                  && (s == 10 <==> k == 0 && p.Match? && follows)
                  && (s == 11 <==> k == 0 && !p.Match? && follows)
                  && (s == 4 || s == 1 <==> 1 <= k <= 2 && p.Match?)
                  && (s == 5 || s == 2 <==> 1 <= k <= 2 && (p.Rep? || (p.ShortRep? && follows)))
                  && (s == 6 || s == 3 <==> 1 <= k <= 2 && p.ShortRep? && !follows))
    decreases |ps|
  {
    hide Distance, CopyBytes;
    if ps != [] {
      var n := |ps| - 1;
      ReplayLast(START, ps, limit);
      StateTells(ps[..n], limit);
      LiteralsMore(ps);
    }
  }

  lemma LiteralsMore(ps: seq<Packet>)
    requires ps != []
    ensures var n, k := |ps| - 1, Literals(ps);
            if ps[n].Literal? then k == 1 + Literals(ps[..n]) else k == 0
  {}

  // ----- the output and the distances

  /** The `n` new bytes each repeat the byte `dist` before them, and nothing else changes. */
  lemma {:induction false} CopyRepeats(out: seq<byte>, dist: nat, n: nat)
    requires 1 <= dist <= |out|
    ensures var after := CopyBytes(out, dist, n);
            && |after| == |out| + n && after[..|out|] == out
            && forall k | |out| <= k < |after| :: after[k] == after[k - dist]
    decreases n
  {
    if n > 0 {
      var more := out + [out[|out| - dist]];
      CopyRepeats(more, dist, n - 1);
      var after := CopyBytes(out, dist, n);
      assert after[..|out|] == after[..|more|][..|out|];
      assert after[|out|] == after[..|more|][|out|] && after[|out| - dist] == after[..|more|][|out| - dist];
    }
  }

  /** The four distances, the one used last first. */
  function Distances(lz: Lz): seq<nat> { [lz.rep0, lz.rep1, lz.rep2, lz.rep3] }

  /** How many bytes a packet stands for. */
  function Length(p: Packet): nat {
    match p
    case Literal(b) => 1
    case ShortRep => 1
    case Match(len, slot, foot) => len + 2
    case Rep(which, len) => len + 2
  }

  /** A literal adds its byte.  Every other packet repeats earlier output, cut off at the
      limit, from the distance that is first in the list afterwards: a new one, which drops
      the oldest, or one of the four, which moves to the front. */
  lemma PacketTells(lz: Lz, p: Packet, limit: nat)
    requires Encodable(p) && |lz.out| < limit && Apply(lz, p, limit).Some?
    requires 1 <= lz.rep0 && 1 <= lz.rep1 && 1 <= lz.rep2 && 1 <= lz.rep3
    ensures var next := Apply(lz, p, limit).value;
            var before, now := Distances(lz), Distances(next);
            && |next.out| == (if |lz.out| + Length(p) <= limit then |lz.out| + Length(p) else limit)
            && next.out[..|lz.out|] == lz.out
            && (p.Literal? ==> next.out[|lz.out|] == p.b && now == before)
            && (!p.Literal? ==>
                1 <= now[0] <= |lz.out| && forall k | |lz.out| <= k < |next.out| :: next.out[k] == next.out[k - now[0]])
            && (p.ShortRep? ==> now == before)
            && (p.Match? ==> now == [Distance(p.slot, p.foot)] + before[..3])
            && (p.Rep? ==> now == [before[p.which]] + before[..p.which] + before[p.which + 1..])
  {
    hide Distance, CopyBytes;
    match p
    case Literal(b) =>
    case ShortRep =>
    case Match(len, slot, foot) =>
      DistancePositive(slot, foot);
      CopyRepeats(lz.out, Distance(slot, foot), Min(len + 2, limit - |lz.out|));
    case Rep(which, len) => CopyRepeats(lz.out, Distances(lz)[which], Min(len + 2, limit - |lz.out|));
  }

  /** A packet fails exactly when its distance reaches before the output. */
  lemma PacketFails(lz: Lz, p: Packet, limit: nat)
    requires Encodable(p) && 1 <= lz.rep0 && 1 <= lz.rep1 && 1 <= lz.rep2 && 1 <= lz.rep3
    ensures Apply(lz, p, limit).None? <==>
              match p
              case Literal(b) => false
              case ShortRep => Distances(lz)[0] > |lz.out|
              case Match(len, slot, foot) => Distance(slot, foot) > |lz.out|
              case Rep(which, len) => Distances(lz)[which] > |lz.out|
  {
    hide Distance, CopyBytes;
  }

  lemma DistancePositive(slot: nat, foot: nat)
    ensures 1 <= Distance(slot, foot)
  {}

  // ----- the code of distances

  /** The distances of one slot end where those of the next begin. */
  lemma SlotsMeet(slot: nat)
    ensures SlotBase(slot) + Pow2(FooterBits(slot)) == SlotBase(slot + 1)
  {
    if slot == 3 {
      assert Pow2(0) == 1 && Pow2(1) == 2;
    } else if slot > 3 {
      var n := FooterBits(slot);
      hide Pow2;
      ShlAdd(2, 1, n);
      ShlAdd(3, 1, n);
      ShlOne(n);
      ShlDouble(2, n);
      assert slot % 2 == 1 ==> FooterBits(slot + 1) == n + 1;
      assert slot % 2 == 0 ==> FooterBits(slot + 1) == n;
    } else {
      assert Pow2(0) == 1;
    }
  }

  lemma {:induction false} SlotsGrow(a: nat, b: nat)
    requires a < b
    ensures SlotBase(a) + Pow2(FooterBits(a)) <= SlotBase(b)
    decreases b
  {
    hide SlotBase, FooterBits;
    SlotsMeet(a);
    if a + 1 < b {
      SlotsGrow(a, b - 1);
      SlotsMeet(b - 1);
    }
  }

  /** Every distance from 1 to 2^32 has a code, and no other. */
  lemma DistanceCoded(d: nat) returns (slot: nat, foot: nat)
    requires 1 <= d <= WORD
    ensures Encodable(Match(0, slot, foot)) && Distance(slot, foot) == d
  {
    hide SlotBase, FooterBits;
    LastSlot();
    slot := FindSlot(d - 1, 64);
    SlotsMeet(slot);
    foot := d - 1 - SlotBase(slot);
  }

  lemma {:induction false} FindSlot(v: nat, n: nat) returns (slot: nat)
    requires 0 < n <= 64 && v < SlotBase(n)
    ensures slot < 64 && SlotBase(slot) <= v < SlotBase(slot + 1)
    decreases n
  {
    hide FooterBits;
    LastSlot();
    if SlotBase(n - 1) <= v {
      slot := n - 1;
    } else {
      slot := FindSlot(v, n - 1);
    }
  }

  lemma LastSlot()
    ensures SlotBase(64) == WORD && SlotBase(0) == 0
  {
    SmallPowers();
    assert Pow2(32) == 2 * Pow2(31);
  }

  lemma DistanceInjective(slot: nat, foot: nat, slot': nat, foot': nat)
    requires Encodable(Match(0, slot, foot)) && Encodable(Match(0, slot', foot'))
             && Distance(slot, foot) == Distance(slot', foot')
    ensures slot == slot' && foot == foot'
    ensures 1 <= Distance(slot, foot) <= WORD
  {
    hide SlotBase, FooterBits;
    LastSlot();
    SlotsGrow(slot, 64);
    if slot < slot' { SlotsGrow(slot, slot'); }
    if slot' < slot { SlotsGrow(slot', slot); }
  }
}
