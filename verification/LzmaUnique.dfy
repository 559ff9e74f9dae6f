/** No stream can be read as two different packet lists: the codes of different packets
    ask for the same contexts until they differ in a bit. */
module LzmaUnique {
  import opened Wrappers
  import opened PowersOfTwo
  import opened LzmaRange
  import opened LzmaPackets

  /** Paths that share their last context, or differ before it. */
  lemma DivergeLast(a: seq<Ev>, b: seq<Ev>, x: Ev, y: Ev)
    requires Diverge(a, b) || (a == b && x.ctx == y.ctx && x.bit != y.bit)
    ensures Diverge(a + [x], b + [y])
  {
    if Diverge(a, b) {
      DivergeExtend(a, b, [x], [y]);
    } else {
      DivergeAfter(a, [x], [y]);
    }
  }

  lemma {:induction false} TreeDiverge(base: nat, n: nat, s: nat, t: nat)
    requires s < Pow2(n) && t < Pow2(n) && s != t
    ensures Diverge(TreePath(base, n, s), TreePath(base, n, t))
    decreases n
  {
    hide Diverge;
    if n > 0 {
      if s / 2 != t / 2 { TreeDiverge(base, n - 1, s / 2, t / 2); }
      DivergeLast(TreePath(base, n - 1, s / 2), TreePath(base, n - 1, t / 2),
                  Ev(Prob(base + Pow2(n - 1) + s / 2), s % 2), Ev(Prob(base + Pow2(n - 1) + t / 2), t % 2));
    }
  }

  lemma {:induction false} DirectDiverge(n: nat, s: nat, t: nat)
    requires s < Pow2(n) && t < Pow2(n) && s != t
    ensures Diverge(DirectPath(n, s), DirectPath(n, t))
    decreases n
  {
    hide Diverge;
    if n > 0 {
      if s / 2 != t / 2 { DirectDiverge(n - 1, s / 2, t / 2); }
      DivergeLast(DirectPath(n - 1, s / 2), DirectPath(n - 1, t / 2), Ev(Direct, s % 2), Ev(Direct, t % 2));
    }
  }

  lemma {:induction false} LitDiverge(base: nat, n: nat, s: nat, t: nat, matched: Option<byte>)
    requires n <= 8 && s < Pow2(n) && t < Pow2(n) && s != t
    ensures Diverge(LitPath(base, n, s, matched), LitPath(base, n, t, matched))
    decreases n
  {
    hide Diverge, LitNode;
    if n > 0 {
      if s / 2 != t / 2 { LitDiverge(base, n - 1, s / 2, t / 2, matched); }
      DivergeLast(LitPath(base, n - 1, s / 2, matched), LitPath(base, n - 1, t / 2, matched),
                  Ev(Prob(base + LitNode(n - 1, s / 2, matched)), s % 2),
                    Ev(Prob(base + LitNode(n - 1, t / 2, matched)), t % 2));
    }
  }

  lemma {:induction false} RevDiverge(base: nat, n: nat, s: nat, t: nat)
    requires s < Pow2(n) && t < Pow2(n) && s != t
    ensures Diverge(RevPath(base, n, s), RevPath(base, n, t))
    decreases n
  {
    hide Diverge, Shr, Shl, RevNode, Low;
    if n > 0 {
      ShlBelow(s, 0, n - 1);
      ShlBelow(t, 0, n - 1);
      LowBound(s, n - 1);
      LowBound(t, n - 1);
      LowIs(s, n - 1);
      LowIs(t, n - 1);
      var x, y := Low(s, n - 1), Low(t, n - 1);
      if x != y { RevDiverge(base, n - 1, x, y); }
      DivergeLast(RevPath(base, n - 1, x), RevPath(base, n - 1, y),
                  Ev(Prob(base + RevNode(n - 1, x)), Shr(s, n - 1)), Ev(Prob(base + RevNode(n - 1, y)), Shr(t, n - 1)));
    }
  }

  lemma LowIs(s: nat, p: nat)
    ensures Low(s, p) == s % Pow2(p)
  {}

  /** The sizes of the trees used. */
  lemma TreeSizes()
    ensures Pow2(0) == 1 && Pow2(1) == 2 && Pow2(3) == 8 && Pow2(4) == 16 && Pow2(6) == 64 && Pow2(7) == 128
            && Pow2(8) == 256
  {}

  lemma LenDiverge(base: nat, posState: nat, len: nat, other: nat)
    requires len < 272 && other < 272 && len != other
    ensures Diverge(LenPath(base, posState, len), LenPath(base, posState, other))
  {
    hide TreePath, Pow2, Diverge;
    TreeSizes();
    var a, b, c := Ev(Prob(base), 1), Ev(Prob(base + 1), 0), Ev(Prob(base + 1), 1);
    if len < 8 && other < 8 {
      TreeDiverge(base + LEN_LOW + posState * 8, 3, len, other);
      DivergeAfter([Ev(Prob(base), 0)], TreePath(base + LEN_LOW + posState * 8, 3, len),
                   TreePath(base + LEN_LOW + posState * 8, 3, other));
    } else if len < 8 || other < 8 {
      FirstBit(LenPath(base, posState, len), LenPath(base, posState, other));
    } else if len < 16 && other < 16 {
      TreeDiverge(base + LEN_MID + posState * 8, 3, len - 8, other - 8);
      DivergeAfter([a, b], TreePath(base + LEN_MID + posState * 8, 3, len - 8),
                   TreePath(base + LEN_MID + posState * 8, 3, other - 8));
    } else if len < 16 || other < 16 {
      DivergeAt(LenPath(base, posState, len), LenPath(base, posState, other), 1);
    } else {
      TreeDiverge(base + LEN_HIGH, 8, len - 16, other - 16);
      DivergeAfter([a, c], TreePath(base + LEN_HIGH, 8, len - 16), TreePath(base + LEN_HIGH, 8, other - 16));
    }
  }

  lemma FirstBit(a: seq<Ev>, b: seq<Ev>)
    requires a != [] && b != [] && a[0].ctx == b[0].ctx && a[0].bit != b[0].bit
    ensures Diverge(a, b)
  {}

  /** Two paths that agree on `n` bits and then differ. */
  lemma DivergeAt(a: seq<Ev>, b: seq<Ev>, n: nat)
    requires n < |a| && n < |b| && (forall k | 0 <= k < n :: a[k] == b[k])
    requires a[n].ctx == b[n].ctx && a[n].bit != b[n].bit
    ensures Diverge(a, b)
  {
    hide Diverge;
    FirstBit(a[n..], b[n..]);
    DivergeAfter(a[..n], a[n..], b[n..]);
    assert a == a[..n] + a[n..] && b == a[..n] + b[n..];
  }

  lemma DistDiverge(len: nat, slot: nat, foot: nat, slot': nat, foot': nat)
    requires slot < 64 && slot' < 64 && foot < Pow2(FooterBits(slot)) && foot' < Pow2(FooterBits(slot'))
    requires slot != slot' || foot != foot'
    ensures Diverge(DistPath(len, slot, foot), DistPath(len, slot', foot'))
  {
    hide TreePath, FootPath, Pow2, Diverge;
    TreeSizes();
    var base := POS_SLOT + (if len < 4 then len else 3) * 64;
    if slot != slot' {
      TreeDiverge(base, 6, slot, slot');
      DivergeExtend(TreePath(base, 6, slot), TreePath(base, 6, slot'), FootPath(slot, foot), FootPath(slot', foot'));
    } else {
      FootDiverge(slot, foot, foot');
      DivergeAfter(TreePath(base, 6, slot), FootPath(slot, foot), FootPath(slot, foot'));
    }
  }

  lemma FootDiverge(slot: nat, foot: nat, foot': nat)
    requires slot < 64 && foot < Pow2(FooterBits(slot)) && foot' < Pow2(FooterBits(slot)) && foot != foot'
    ensures Diverge(FootPath(slot, foot), FootPath(slot, foot'))
  {
    hide DirectPath, RevPath, Diverge, Pow2, Shl;
    TreeSizes();
    if slot < 14 {
      SlotBaseAbove(slot);
      RevDiverge(SPEC_POS - 1 + (SlotBase(slot) - slot), FooterBits(slot), foot, foot');
    } else {
      var n := FooterBits(slot) - 4;
      Pow2Add(n, 4);
      if foot / 16 != foot' / 16 {
        DirectDiverge(n, foot / 16, foot' / 16);
        DivergeExtend(DirectPath(n, foot / 16), DirectPath(n, foot' / 16), RevPath(ALIGN, 4, foot % 16),
                      RevPath(ALIGN, 4, foot' % 16));
      } else {
        RevDiverge(ALIGN, 4, foot % 16, foot' % 16);
        DivergeAfter(DirectPath(n, foot / 16), RevPath(ALIGN, 4, foot % 16), RevPath(ALIGN, 4, foot' % 16));
      }
    }
  }

  /** The base of a slot with a modelled footer is never below the slot number. */
  lemma SlotBaseAbove(slot: nat)
    requires slot < 14
    ensures slot <= SlotBase(slot)
    ensures SlotBase(slot) - slot + Pow2(FooterBits(slot)) <= 115
  {
    if slot >= 4 {
      assert FooterBits(slot) in {1, 2, 3, 4, 5};
      assert Pow2(1) == 2 && Pow2(2) == 4 && Pow2(3) == 8 && Pow2(4) == 16 && Pow2(5) == 32;
    }
  }

  /** Different packets in the same state have diverging codes. */
  lemma EventsDiverge(c: Props, lz: Lz, p: Packet, q: Packet)
    requires c.lc <= 8 && Encodable(p) && Encodable(q) && p != q
    ensures Diverge(Events(c, lz, p), Events(c, lz, q))
  {
    hide LenPath, DistPath, LitPath, Diverge, Pow2, LiteralBase, Matched, PosState;
    var a, b := Events(c, lz, p), Events(c, lz, q);
    if p.Literal? != q.Literal? {
      FirstBit(a, b);
    } else if p.Literal? {
      TreeSizes();
      LitDiverge(LiteralBase(c, lz), 8, p.b, q.b, Matched(lz));
      DivergeAfter([a[0]], LitPath(LiteralBase(c, lz), 8, p.b, Matched(lz)),
                   LitPath(LiteralBase(c, lz), 8, q.b, Matched(lz)));
    } else if p.Match? != q.Match? {
      DivergeAt(a, b, 1);
    } else if p.Match? {
      MatchDiverge(LEN_CODER, PosState(c, lz), p, q);
      DivergeAfter([a[0], a[1]], LenPath(LEN_CODER, PosState(c, lz), p.len) + DistPath(p.len, p.slot, p.foot),
                   LenPath(LEN_CODER, PosState(c, lz), q.len) + DistPath(q.len, q.slot, q.foot));
    } else {
      RepDiverge(c, lz, p, q);
    }
  }

  lemma MatchDiverge(base: nat, posState: nat, p: Packet, q: Packet)
    requires p.Match? && q.Match? && Encodable(p) && Encodable(q) && p != q
    ensures Diverge(LenPath(base, posState, p.len) + DistPath(p.len, p.slot, p.foot),
                    LenPath(base, posState, q.len) + DistPath(q.len, q.slot, q.foot))
  {
    hide LenPath, DistPath, Diverge, Pow2;
    if p.len != q.len {
      LenDiverge(base, posState, p.len, q.len);
      DivergeExtend(LenPath(base, posState, p.len), LenPath(base, posState, q.len),
                    DistPath(p.len, p.slot, p.foot), DistPath(q.len, q.slot, q.foot));
    } else {
      DistDiverge(p.len, p.slot, p.foot, q.slot, q.foot);
      DivergeAfter(LenPath(base, posState, p.len), DistPath(p.len, p.slot, p.foot), DistPath(q.len, q.slot, q.foot));
    }
  }

  /** The bits that tell the kinds of repeated match apart. */
  function RepBits(p: Packet): seq<nat> {
    match p
    case ShortRep => [0, 0]
    case Rep(which, len) =>
      if which == 0 then [0, 1] else if which == 1 then [1, 0] else if which == 2 then [1, 1, 0] else [1, 1, 1]
    case _ => []
  }

  lemma RepDiverge(c: Props, lz: Lz, p: Packet, q: Packet)
    requires c.lc <= 8 && Encodable(p) && Encodable(q) && p != q
    requires (p.ShortRep? || p.Rep?) && (q.ShortRep? || q.Rep?)
    ensures Diverge(Events(c, lz, p), Events(c, lz, q))
  {
    hide LenPath, Diverge, Pow2, LiteralBase, Matched, PosState;
    var a, b := Events(c, lz, p), Events(c, lz, q);
    if p.Rep? && q.Rep? && p.which == q.which {
      var n := |RepBits(p)| + 2;
      var x, y := LenPath(REP_LEN_CODER, PosState(c, lz), p.len), LenPath(REP_LEN_CODER, PosState(c, lz), q.len);
      LenDiverge(REP_LEN_CODER, PosState(c, lz), p.len, q.len);
      assert a == a[..n] + x && b == a[..n] + y;
      DivergeAfter(a[..n], x, y);
    } else {
      var n := if RepBits(p)[0] != RepBits(q)[0] then 2 else if RepBits(p)[1] != RepBits(q)[1] then 3 else 4;
      DivergeAt(a, b, n);
    }
  }

  // ----- every beginning of a path can be completed

  lemma {:induction false} RevNodeBound(k: nat, s: nat)
    requires s < Pow2(k)
    ensures Pow2(k) <= RevNode(k, s) < 2 * Pow2(k)
  {
    hide Low, Shr;
    if k > 0 {
      LowBound(s, k - 1);
      RevNodeBound(k - 1, Low(s, k - 1));
      ShlBelow(s, 2, k - 1);
    }
  }

  lemma Completion(k: nat, n: nat, s: nat)
    requires k < n && s < Pow2(k)
    ensures Shl(s, n - k) < Pow2(n) && Shl(s, n - k) / 2 == Shl(s, n - 1 - k) && Shl(s, 0) == s
  {
    var m := Pow2(n - 1 - k);
    Pow2Add(k, n - k);
    CompletionM(s, Pow2(k), m);
    assert Pow2(n - k) == 2 * m;
  }

  lemma CompletionM(s: nat, l: nat, m: nat)
    requires s < l && m > 0
    ensures s * (2 * m) == 2 * (s * m) && s * (2 * m) < l * (2 * m)
  {
    OrderTimes(l - s, 2 * m);
    Distribute(l, s, 2 * m);
  }

  lemma {:induction false} TreeCompletes(base: nat, k: nat, n: nat, s: nat)
    requires k < n && s < Pow2(k)
    ensures Shl(s, n - k) < Pow2(n) && TreePath(base, k, s) < TreePath(base, n, Shl(s, n - k))
    decreases n
  {
    hide Pow2, Shl;
    Completion(k, n, s);
    if k < n - 1 { TreeCompletes(base, k, n - 1, s); }
  }

  lemma {:induction false} DirectCompletes(k: nat, n: nat, s: nat)
    requires k < n && s < Pow2(k)
    ensures Shl(s, n - k) < Pow2(n) && DirectPath(k, s) < DirectPath(n, Shl(s, n - k))
    decreases n
  {
    hide Pow2, Shl;
    Completion(k, n, s);
    if k < n - 1 { DirectCompletes(k, n - 1, s); }
  }

  lemma {:induction false} LitPathCompletes(base: nat, k: nat, n: nat, s: nat, matched: Option<byte>)
    requires k < n <= 8 && s < Pow2(k)
    ensures Shl(s, n - k) < Pow2(n) && LitPath(base, k, s, matched) < LitPath(base, n, Shl(s, n - k), matched)
    decreases n
  {
    hide Pow2, Shl, LitNode;
    Completion(k, n, s);
    if k < n - 1 { LitPathCompletes(base, k, n - 1, s, matched); }
  }

  lemma LitCompletes(base: nat, k: nat, s: nat, matched: Option<byte>) returns (b: byte)
    requires k < 8 && s < Pow2(k)
    ensures LitPath(base, k, s, matched) < LitPath(base, 8, b, matched)
  {
    hide LitPath, LitNode;
    TreeSizes();
    LitPathCompletes(base, k, 8, s, matched);
    b := Shl(s, 8 - k);
  }

  lemma {:induction false} RevCompletes(base: nat, k: nat, n: nat, s: nat)
    requires k < n && s < Pow2(k)
    ensures s < Pow2(n) && RevPath(base, k, s) < RevPath(base, n, s)
    decreases n
  {
    hide Pow2, Shr, Low, RevNode;
    Pow2Monotone(k, n - 1);
    Pow2Monotone(n - 1, n);
    LowOfSmall(s, n - 1);
    if k < n - 1 { RevCompletes(base, k, n - 1, s); }
  }

  lemma LowOfSmall(s: nat, p: nat)
    requires s < Pow2(p)
    ensures Low(s, p) == s
  {
    DivUnique(s, 0, s, Pow2(p));
  }
}
