/** The LZMA packet format: which contexts are asked for, and which bits answer, for each
    packet, and what each packet does to the output. */
module LzmaPackets {
  import opened Wrappers
  import opened PowersOfTwo
  import opened LzmaRange

  // ----- the layout of the probability table

  const LEN_LOW: nat := 2
  const LEN_MID: nat := 130
  const LEN_HIGH: nat := 258
  const NUM_LEN_PROBS: nat := 514
  const IS_MATCH: nat := 0
  const IS_REP: nat := 192
  const IS_REP_G0: nat := 204
  const IS_REP_G1: nat := 216
  const IS_REP_G2: nat := 228
  const IS_REP0_LONG: nat := 240
  const POS_SLOT: nat := 432
  const SPEC_POS: nat := 688
  const ALIGN: nat := 802
  const LEN_CODER: nat := 818
  const REP_LEN_CODER: nat := 1332
  const LITERAL: nat := 1846
  const LIT_SIZE: nat := 768

  /** The stream's properties. */
  datatype Props = Props(lc: nat, lp: nat, pb: nat) {
    predicate Valid() { lc <= 8 && lp <= 4 && pb <= 4 }
    function NumProbs(): nat { LITERAL + LIT_SIZE * Pow2(lc + lp) }
  }

  // ----- bit trees

  /** The `n` bits of `s`, most significant first, along the nodes of a bit tree. */
  function TreePath(base: nat, n: nat, s: nat): seq<Ev> {
    if n == 0 then []
    else TreePath(base, n - 1, s / 2) + [Ev(Prob(base + Pow2(n - 1) + s / 2), s % 2)]
  }

  /** The tree node reached by the `n` bits of `s`, least significant first. */
  function RevNode(n: nat, s: nat): nat {
    if n == 0 then 1 else 2 * RevNode(n - 1, Low(s, n - 1)) + Shr(s, n - 1)
  }

  /** The `n` bits of `s`, least significant first, along the nodes of a bit tree. */
  function RevPath(base: nat, n: nat, s: nat): seq<Ev> {
    if n == 0 then []
    else RevPath(base, n - 1, Low(s, n - 1)) + [Ev(Prob(base + RevNode(n - 1, Low(s, n - 1))), Shr(s, n - 1))]
  }

  /** The `n` bits of `s`, most significant first, without a model. */
  function DirectPath(n: nat, s: nat): seq<Ev> {
    if n == 0 then [] else DirectPath(n - 1, s / 2) + [Ev(Direct, s % 2)]
  }

  /** The node of a literal's bit after the bits `prefix` (of `k` bits): while they agree
      with the byte at the last match distance, its next bit selects the tree. */
  function LitNode(k: nat, prefix: nat, matched: Option<byte>): nat
    requires k < 8
  {
    (if matched.Some? && prefix == Shr(matched.value, 8 - k)
     then 0x100 + 0x100 * (Shr(matched.value, 7 - k) % 2) else 0) + Pow2(k) + prefix
  }

  /** The `n` high bits of a literal. */
  function LitPath(base: nat, n: nat, s: nat, matched: Option<byte>): seq<Ev>
    requires n <= 8
  {
    if n == 0 then []
    else LitPath(base, n - 1, s / 2, matched) + [Ev(Prob(base + LitNode(n - 1, s / 2, matched)), s % 2)]
  }

  // ----- lengths and distances

  /** The length `len + 2`, in the length coder at `base`. */
  function LenPath(base: nat, posState: nat, len: nat): seq<Ev> {
    if len < 8 then [Ev(Prob(base), 0)] + TreePath(base + LEN_LOW + posState * 8, 3, len)
    else if len < 16
    then [Ev(Prob(base), 1), Ev(Prob(base + 1), 0)] + TreePath(base + LEN_MID + posState * 8, 3, len - 8)
    else [Ev(Prob(base), 1), Ev(Prob(base + 1), 1)] + TreePath(base + LEN_HIGH, 8, len - 16)
  }

  /** The number of bits that follow the position slot. */
  function FooterBits(slot: nat): nat { if slot < 4 then 0 else slot / 2 - 1 }

  /** The first distance (less one) of a slot. */
  function SlotBase(slot: nat): nat {
    if slot < 4 then slot else Shl(2 + slot % 2, FooterBits(slot))
  }

  function DistPath(len: nat, slot: nat, foot: nat): seq<Ev> {
    var lenState := if len < 4 then len else 3;
    TreePath(POS_SLOT + lenState * 64, 6, slot) + FootPath(slot, foot)
  }

  function FootPath(slot: nat, foot: nat): seq<Ev> {
    if slot < 4 then []
    else if slot < 14 then
      (if SlotBase(slot) >= slot then RevPath(SPEC_POS - 1 + (SlotBase(slot) - slot), FooterBits(slot), foot) else [])
    else DirectPath(FooterBits(slot) - 4, foot / 16) + RevPath(ALIGN, 4, foot % 16)
  }

  // ----- packets

  datatype Packet =
    | Literal(b: byte)
    | Match(len: nat, slot: nat, foot: nat)
    | ShortRep
    | Rep(which: nat, len: nat)

  /** A packet with all its parts in the range of their codes. */
  predicate Encodable(p: Packet) {
    match p
    case Literal(b) => true
    case Match(len, slot, foot) => len < 272 && slot < 64 && foot < Pow2(FooterBits(slot))
    case ShortRep => true
    case Rep(which, len) => which < 4 && len < 272
  }

  /** The distance 2^32, which wraps to zero, ends the stream. */
  predicate IsEndMarker(p: Packet) { p.Match? && Distance(p.slot, p.foot) == WORD }

  /** The state between packets. */
  datatype Lz = Lz(state: nat, rep0: nat, rep1: nat, rep2: nat, rep3: nat, out: seq<byte>)

  const START: Lz := Lz(0, 1, 1, 1, 1, [])

  function PosState(c: Props, lz: Lz): nat { Low(|lz.out|, c.pb) }

  function PreviousByte(out: seq<byte>): byte { if out == [] then 0 else out[|out| - 1] }

  function LiteralBase(c: Props, lz: Lz): nat
    requires c.lc <= 8
  {
    LITERAL + LIT_SIZE * (Shl(Low(|lz.out|, c.lp), c.lc) + Shr(PreviousByte(lz.out), 8 - c.lc))
  }

  /** After a match, a literal is coded against the byte at the last distance. */
  function Matched(lz: Lz): Option<byte> {
    if lz.state >= 7 && 1 <= lz.rep0 <= |lz.out| then Some(lz.out[|lz.out| - lz.rep0]) else None
  }

  /** The contexts and bits of one packet. */
  function Events(c: Props, lz: Lz, p: Packet): seq<Ev>
    requires c.lc <= 8
  {
    var s, posState := lz.state, PosState(c, lz);
    var isMatch, isRep := Prob(IS_MATCH + s * 16 + posState), Prob(IS_REP + s);
    var g0, g1, g2, long := Prob(IS_REP_G0 + s), Prob(IS_REP_G1 + s), Prob(IS_REP_G2 + s),
      Prob(IS_REP0_LONG + s * 16 + posState);
    match p
    case Literal(b) => [Ev(isMatch, 0)] + LitPath(LiteralBase(c, lz), 8, b, Matched(lz))
    case Match(len, slot, foot) =>
      [Ev(isMatch, 1), Ev(isRep, 0)] + (LenPath(LEN_CODER, posState, len) + DistPath(len, slot, foot))
    case ShortRep => [Ev(isMatch, 1), Ev(isRep, 1), Ev(g0, 0), Ev(long, 0)]
    case Rep(which, len) =>
      [Ev(isMatch, 1), Ev(isRep, 1)]
      + (if which == 0 then [Ev(g0, 0), Ev(long, 1)]
         else if which == 1 then [Ev(g0, 1), Ev(g1, 0)]
         else if which == 2 then [Ev(g0, 1), Ev(g1, 1), Ev(g2, 0)]
         else [Ev(g0, 1), Ev(g1, 1), Ev(g2, 1)])
      + LenPath(REP_LEN_CODER, posState, len)
  }

  /** `n` bytes copied one by one from `dist` back; the copy may overlap itself. */
  function CopyBytes(out: seq<byte>, dist: nat, n: nat): seq<byte>
    requires 1 <= dist <= |out|
    decreases n
  {
    if n == 0 then out else CopyBytes(out + [out[|out| - dist]], dist, n - 1)
  }

  function Min(a: nat, b: int): nat { if b < 0 then 0 else if a <= b then a else b }

  /** The distance of a match, before the end marker is told apart. */
  function Distance(slot: nat, foot: nat): nat { SlotBase(slot) + foot + 1 }

  /** What a packet does to the state; `None` if its distance reaches before the output.
      No packet writes past `limit`. */
  function Apply(lz: Lz, p: Packet, limit: nat): Option<Lz> {
    var s := lz.state;
    match p
    case Literal(b) =>
      Some(lz.(state := if s < 4 then 0 else if s < 10 then s - 3 else s - 6, out := lz.out + [b]))
    case ShortRep =>
      if 1 <= lz.rep0 <= |lz.out|
      then Some(lz.(state := if s < 7 then 9 else 11, out := lz.out + [lz.out[|lz.out| - lz.rep0]])) else None
    case Match(len, slot, foot) =>
      var d := Distance(slot, foot);
      if d <= |lz.out|
      then Some(Lz(if s < 7 then 7 else 10, d, lz.rep0, lz.rep1, lz.rep2,
                   CopyBytes(lz.out, d, Min(len + 2, limit - |lz.out|))))
      else None
    case Rep(which, len) =>
      var d := if which == 0 then lz.rep0 else if which == 1 then lz.rep1 else if which == 2 then lz.rep2 else lz.rep3;
      if 1 <= d <= |lz.out|
      then Some(Lz(if s < 7 then 8 else 11, d,
                   if which == 0 then lz.rep1 else lz.rep0,
                   if which <= 1 then lz.rep2 else lz.rep1,
                   if which <= 2 then lz.rep3 else lz.rep2,
                   CopyBytes(lz.out, d, Min(len + 2, limit - |lz.out|))))
      else None
  }

  /** The literal coder of every position and previous byte is in the table. */
  lemma LiteralInTable(c: Props, pos: nat, previous: byte)
    requires c.Valid()
    ensures LITERAL + LIT_SIZE * (Shl(Low(pos, c.lp), c.lc) + Shr(previous, 8 - c.lc)) + LIT_SIZE <= c.NumProbs()
  {
    hide Shl, Shr, Low, Pow2;
    LowBound(pos, c.lp);
    ShlMonotone(Low(pos, c.lp) + 1, Pow2(c.lp), c.lc);
    ShlAdd(Low(pos, c.lp), 1, c.lc);
    ShlOfPower(c.lc, c.lp);
    ShlOfPower(8 - c.lc, c.lc);
    SmallPowers();
    ShlBelow(previous, Pow2(c.lc), 8 - c.lc);
  }

  lemma ShlOfPower(a: nat, b: nat)
    ensures Shl(Pow2(b), a) == Pow2(a + b) && Shl(1, a) == Pow2(a)
  {
    Pow2Add(a, b);
  }
}
