/** Which question each bit of a packet answers.  The table of probabilities has its own
    place for every question, so adapting one never disturbs another. */
module LzmaContexts {
  import opened Wrappers
  import opened PowersOfTwo
  import opened LzmaRange
  import opened LzmaPackets
  import opened LzmaUnique

  /** What the decoder can ask, apart from bits without a model.  `rep` tells the two length
      coders apart; a node is a position in a bit tree, that is, the bits before. */
  datatype Question =
    | IsMatch(state: nat, posState: nat)
    | IsRep(state: nat)
    | IsRepG0(state: nat)
    | IsRepG1(state: nat)
    | IsRepG2(state: nat)
    | IsRep0Long(state: nat, posState: nat)
    | SlotBit(lenState: nat, node: nat)
    | SpecBit(slot: nat, node: nat)
    | AlignBit(node: nat)
    | LenChoice(rep: bool, long: bool)
    | LenLowBit(rep: bool, posState: nat, node: nat)
    | LenMidBit(rep: bool, posState: nat, node: nat)
    | LenHighBit(rep: bool, node: nat)
    | LiteralBit(coder: nat, node: nat)

  predicate Askable(q: Question) {
    match q
    case IsMatch(s, p) => s < 12 && p < 16
    case IsRep(s) => s < 12
    case IsRepG0(s) => s < 12
    case IsRepG1(s) => s < 12
    case IsRepG2(s) => s < 12
    case IsRep0Long(s, p) => s < 12 && p < 16
    case SlotBit(l, node) => l < 4 && 1 <= node < 64
    case SpecBit(slot, node) => 4 <= slot < 14 && 1 <= node < Pow2(FooterBits(slot))
    case AlignBit(node) => 1 <= node < 16
    case LenChoice(rep, long) => true
    case LenLowBit(rep, p, node) => p < 16 && 1 <= node < 8
    case LenMidBit(rep, p, node) => p < 16 && 1 <= node < 8
    case LenHighBit(rep, node) => 1 <= node < 256
    case LiteralBit(coder, node) => 1 <= node < LIT_SIZE
  }

  function LenBase(rep: bool): nat { if rep then REP_LEN_CODER else LEN_CODER }

  /** Where the probability of a question is. */
  function Place(q: Question): int {
    match q
    case IsMatch(s, p) => IS_MATCH + s * 16 + p
    case IsRep(s) => IS_REP + s
    case IsRepG0(s) => IS_REP_G0 + s
    case IsRepG1(s) => IS_REP_G1 + s
    case IsRepG2(s) => IS_REP_G2 + s
    case IsRep0Long(s, p) => IS_REP0_LONG + s * 16 + p
    case SlotBit(l, node) => POS_SLOT + l * 64 + node
    case SpecBit(slot, node) => SPEC_POS - 1 + (SlotBase(slot) - slot) + node
    case AlignBit(node) => ALIGN + node
    case LenChoice(rep, long) => LenBase(rep) + if long then 1 else 0
    case LenLowBit(rep, p, node) => LenBase(rep) + LEN_LOW + p * 8 + node
    case LenMidBit(rep, p, node) => LenBase(rep) + LEN_MID + p * 8 + node
    case LenHighBit(rep, node) => LenBase(rep) + LEN_HIGH + node
    case LiteralBit(coder, node) => LITERAL + LIT_SIZE * coder + node
  }

  /** The footers of the slots in the middle, side by side. */
  lemma SpecSlots(slot: nat)
    requires 4 <= slot < 14
    ensures SlotBase(slot) - slot
            == (if slot == 4 then 0 else if slot == 5 then 1 else if slot == 6 then 2 else if slot == 7 then 5
                else if slot == 8 then 8 else if slot == 9 then 15 else if slot == 10 then 22 else if slot == 11 then 37
                else if slot == 12 then 52 else 83)
    ensures Pow2(FooterBits(slot))
            == if slot < 6 then 2 else if slot < 8 then 4 else if slot < 10 then 8 else if slot < 12 then 16 else 32
  {
    assert Pow2(1) == 2 && Pow2(2) == 4 && Pow2(3) == 8 && Pow2(4) == 16 && Pow2(5) == 32;
  }

  /** The regions of the table, in order. */
  function Region(q: Question): nat {
    match q
    case IsMatch(s, p) => 0
    case IsRep(s) => 1
    case IsRepG0(s) => 2
    case IsRepG1(s) => 3
    case IsRepG2(s) => 4
    case IsRep0Long(s, p) => 5
    case SlotBit(l, node) => 6
    case SpecBit(slot, node) => 7
    case AlignBit(node) => 8
    case LenChoice(rep, long) => if rep then 13 else 9
    case LenLowBit(rep, p, node) => if rep then 14 else 10
    case LenMidBit(rep, p, node) => if rep then 15 else 11
    case LenHighBit(rep, node) => if rep then 16 else 12
    case LiteralBit(coder, node) => 17
  }

  /** Where each region begins. */
  const BOUNDS: seq<nat> := [0, 192, 204, 216, 228, 240, 432, 688, 802, 818, 820, 948, 1076, 1332, 1334, 1462, 1590,
                             1846]

  lemma InRegion(q: Question)
    requires Askable(q)
    ensures Region(q) < |BOUNDS| && BOUNDS[Region(q)] <= Place(q)
    ensures Region(q) + 1 < |BOUNDS| ==> Place(q) < BOUNDS[Region(q) + 1]
  {
    hide Pow2, SlotBase, FooterBits;
    if q.SpecBit? { SpecSlots(q.slot); }
  }

  lemma SameRegion(q: Question, r: Question)
    requires Askable(q) && Askable(r) && Place(q) == Place(r)
    ensures Region(q) == Region(r)
  {
    hide Place, Region, Askable;
    InRegion(q);
    InRegion(r);
  }

  /** The question with this place in this region. */
  function Asks(region: nat, place: nat): Question
    requires region < |BOUNDS| && BOUNDS[region] <= place
  {
    var v := place - BOUNDS[region];
    match region
    case 0 => IsMatch(v / 16, v % 16)
    case 1 => IsRep(v)
    case 2 => IsRepG0(v)
    case 3 => IsRepG1(v)
    case 4 => IsRepG2(v)
    case 5 => IsRep0Long(v / 16, v % 16)
    case 6 => SlotBit(v / 64, v % 64)
    case 7 => if v < 2 then SpecBit(4 + v, 1) else if v < 5 then SpecBit(6, v - 1) else if v < 8 then SpecBit(7, v - 4)
              else if v < 15 then SpecBit(8, v - 7) else if v < 22 then SpecBit(9, v - 14)
              else if v < 37 then SpecBit(10, v - 21) else if v < 52 then SpecBit(11, v - 36)
              else if v < 83 then SpecBit(12, v - 51) else SpecBit(13, v - 82)
    case 8 => AlignBit(v)
    case 9 => LenChoice(false, v == 1)
    case 10 => LenLowBit(false, v / 8, v % 8)
    case 11 => LenMidBit(false, v / 8, v % 8)
    case 12 => LenHighBit(false, v)
    case 13 => LenChoice(true, v == 1)
    case 14 => LenLowBit(true, v / 8, v % 8)
    case 15 => LenMidBit(true, v / 8, v % 8)
    case 16 => LenHighBit(true, v)
    case _ => LiteralBit(v / LIT_SIZE, v % LIT_SIZE)
  }

  lemma StatePlaces(q: Question)
    requires Askable(q) && (q.IsMatch? || q.IsRep0Long?)
    ensures Region(q) < |BOUNDS| && 0 <= BOUNDS[Region(q)] <= Place(q) && Asks(Region(q), Place(q)) == q
  {
    hide Pow2, SlotBase, FooterBits;
    DivUnique(q.state * 16 + q.posState, q.state, q.posState, 16);
  }

  lemma DistancePlaces(q: Question)
    requires Askable(q) && (q.SlotBit? || q.SpecBit?)
    ensures Region(q) < |BOUNDS| && 0 <= BOUNDS[Region(q)] <= Place(q) && Asks(Region(q), Place(q)) == q
  {
    hide Pow2, SlotBase, FooterBits;
    if q.SpecBit? { SpecSlots(q.slot); } else { DivUnique(q.lenState * 64 + q.node, q.lenState, q.node, 64); }
  }

  lemma LengthPlaces(q: Question)
    requires Askable(q) && (q.LenLowBit? || q.LenMidBit?)
    ensures Region(q) < |BOUNDS| && 0 <= BOUNDS[Region(q)] <= Place(q) && Asks(Region(q), Place(q)) == q
  {
    hide Pow2, SlotBase, FooterBits;
    DivUnique(q.posState * 8 + q.node, q.posState, q.node, 8);
  }

  lemma LiteralPlaces(q: Question)
    requires Askable(q) && (q.LiteralBit?)
    ensures Region(q) < |BOUNDS| && 0 <= BOUNDS[Region(q)] <= Place(q) && Asks(Region(q), Place(q)) == q
  {
    hide Pow2, SlotBase, FooterBits;
    DivUnique(q.coder * LIT_SIZE + q.node, q.coder, q.node, LIT_SIZE);
  }

  lemma OtherPlaces(q: Question)
    requires Askable(q)
             && (q.IsRep? || q.IsRepG0? || q.IsRepG1? || q.IsRepG2? || q.AlignBit? || q.LenChoice? || q.LenHighBit?)
    ensures Region(q) < |BOUNDS| && 0 <= BOUNDS[Region(q)] <= Place(q) && Asks(Region(q), Place(q)) == q
  {
    hide Pow2, SlotBase, FooterBits;
  }

  /** A place tells its question. */
  lemma PlaceAsks(q: Question)
    requires Askable(q)
    ensures Region(q) < |BOUNDS| && 0 <= BOUNDS[Region(q)] <= Place(q) && Asks(Region(q), Place(q)) == q
  {
    hide Place, Region, Askable, Asks;
    match q
    case IsMatch(s, p) => StatePlaces(q);
    case IsRep0Long(s, p) => StatePlaces(q);
    case SlotBit(l, node) => DistancePlaces(q);
    case SpecBit(slot, node) => DistancePlaces(q);
    case LenLowBit(rep, p, node) => LengthPlaces(q);
    case LenMidBit(rep, p, node) => LengthPlaces(q);
    case LiteralBit(coder, node) => LiteralPlaces(q);
    case _ => OtherPlaces(q);
  }

  /** No two questions share a probability. */
  lemma PlacesApart(q: Question, r: Question)
    requires Askable(q) && Askable(r) && Place(q) == Place(r)
    ensures q == r
  {
    hide Place, Region, Askable, Asks;
    SameRegion(q, r);
    PlaceAsks(q);
    PlaceAsks(r);
  }

  // ----- the questions of one packet and their answers

  /** A bit; `None` if it has no model. */
  datatype Answer = Answer(asked: Option<Question>, bit: nat)

  /** Bit `k` of the `n` bits of `s`, the most significant first. */
  function Bit(n: nat, s: nat, k: nat): nat
    requires k < n
  {
    Shr(s, n - 1 - k) % 2
  }

  /** The `k` bits before it, with a leading one. */
  function Node(n: nat, s: nat, k: nat): nat
    requires k < n
  {
    Pow2(k) + Shr(s, n - k)
  }

  function TreeAnswers(ask: nat -> Question, n: nat, s: nat): seq<Answer> {
    seq(n, k requires 0 <= k < n => Answer(Some(ask(Node(n, s, k))), Bit(n, s, k)))
  }

  /** The least significant bit first. */
  function RevAnswers(ask: nat -> Question, n: nat, s: nat): seq<Answer> {
    seq(n, k requires 0 <= k < n => Answer(Some(ask(RevNode(k, Low(s, k)))), Shr(s, k) % 2))
  }

  function DirectAnswers(n: nat, s: nat): seq<Answer> {
    seq(n, k requires 0 <= k < n => Answer(None, Bit(n, s, k)))
  }

  /** The tree for bit `k` of a literal: as long as the bits before agree with those of the
      byte at the last distance, that byte's next bit selects it. */
  function LiteralTree(n: nat, s: nat, matched: Option<byte>, k: nat): nat
    requires k < n <= 8
  {
    if matched.Some? && Shr(s, n - k) == Shr(matched.value, 8 - k)
    then (if Bit(8, matched.value, k) == 0 then 0x100 else 0x200) else 0
  }

  /** The first `n` bits of a literal. */
  function LiteralAnswers(coder: nat, n: nat, s: nat, matched: Option<byte>): seq<Answer>
    requires n <= 8
  {
    seq(n, k requires 0 <= k < n =>
      Answer(Some(LiteralBit(coder, LiteralTree(n, s, matched, k) + Node(n, s, k))), Bit(n, s, k)))
  }

  function LengthAnswers(rep: bool, posState: nat, len: nat): seq<Answer> {
    if len < 8 then
      [Answer(Some(LenChoice(rep, false)), 0)] + TreeAnswers((node: nat) => LenLowBit(rep, posState, node), 3, len)
    else if len < 16 then
      [Answer(Some(LenChoice(rep, false)), 1), Answer(Some(LenChoice(rep, true)), 0)]
      + TreeAnswers((node: nat) => LenMidBit(rep, posState, node), 3, len - 8)
    else
      [Answer(Some(LenChoice(rep, false)), 1), Answer(Some(LenChoice(rep, true)), 1)]
      + TreeAnswers((node: nat) => LenHighBit(rep, node), 8, len - 16)
  }

  function DistanceAnswers(len: nat, slot: nat, foot: nat): seq<Answer> {
    var lenState := if len < 4 then len else 3;
    TreeAnswers((node: nat) => SlotBit(lenState, node), 6, slot) + FooterAnswers(slot, foot)
  }

  function FooterAnswers(slot: nat, foot: nat): seq<Answer> {
    if slot < 4 then []
    else if slot < 14 then RevAnswers((node: nat) => SpecBit(slot, node), FooterBits(slot), foot)
    else DirectAnswers(FooterBits(slot) - 4, foot / 16) + RevAnswers((node: nat) => AlignBit(node), 4, foot % 16)
  }

  /** The questions for a packet in the state `lz`, with its answers. */
  function Answers(c: Props, lz: Lz, p: Packet): seq<Answer>
    requires c.lc <= 8
  {
    var s, posState := lz.state, Low(|lz.out|, c.pb);
    var previous := if lz.out == [] then 0 else lz.out[|lz.out| - 1];
    var coder := Shl(Low(|lz.out|, c.lp), c.lc) + Shr(previous, 8 - c.lc);
    var matched := if s >= 7 && 1 <= lz.rep0 <= |lz.out| then Some(lz.out[|lz.out| - lz.rep0]) else None;
    match p
    case Literal(b) => [Answer(Some(IsMatch(s, posState)), 0)] + LiteralAnswers(coder, 8, b, matched)
    case Match(len, slot, foot) =>
      [Answer(Some(IsMatch(s, posState)), 1), Answer(Some(IsRep(s)), 0)]
      + (LengthAnswers(false, posState, len) + DistanceAnswers(len, slot, foot))
    case ShortRep =>
      [Answer(Some(IsMatch(s, posState)), 1), Answer(Some(IsRep(s)), 1), Answer(Some(IsRepG0(s)), 0),
       Answer(Some(IsRep0Long(s, posState)), 0)]
    case Rep(which, len) =>
      [Answer(Some(IsMatch(s, posState)), 1), Answer(Some(IsRep(s)), 1)]
      + (if which == 0 then [Answer(Some(IsRepG0(s)), 0), Answer(Some(IsRep0Long(s, posState)), 1)]
         else [Answer(Some(IsRepG0(s)), 1)]
              + if which == 1 then [Answer(Some(IsRepG1(s)), 0)]
                else [Answer(Some(IsRepG1(s)), 1), Answer(Some(IsRepG2(s)), which - 2)])
      + LengthAnswers(true, posState, len)
  }

  predicate Puts(e: Ev, a: Answer) {
    && e.bit == a.bit
    && match a.asked
       case None => e.ctx == Direct
       case Some(q) => Askable(q) && Place(q) >= 0 && e.ctx == Prob(Place(q))
  }

  /** The events put these questions, and get these answers. */
  ghost predicate PutsAll(es: seq<Ev>, answers: seq<Answer>) {
    |es| == |answers| && forall k | 0 <= k < |es| :: Puts(es[k], answers[k])
  }

  lemma PutsBoth(es: seq<Ev>, answers: seq<Answer>, fs: seq<Ev>, more: seq<Answer>)
    requires PutsAll(es, answers) && PutsAll(fs, more)
    ensures PutsAll(es + fs, answers + more)
  {
    hide Puts;
  }

  // ----- bit by bit

  lemma NodeHalf(n: nat, s: nat, k: nat)
    requires k + 1 < n
    ensures Bit(n, s, k) == Bit(n - 1, s / 2, k) && Node(n, s, k) == Node(n - 1, s / 2, k)
  {
    Halve(s, n - 1 - k);
    Halve(s, n - k);
  }

  /** Halving first, or later. */
  lemma Halve(s: nat, m: nat)
    requires m > 0
    ensures Shr(s, m) == Shr(s / 2, m - 1)
  {
    assert Pow2(m) == 2 * Pow2(m - 1);
    DivDiv(s, Pow2(m - 1));
  }

  lemma DivDiv(s: nat, m: nat)
    requires m > 0
    ensures s / (2 * m) == s / 2 / m
  {
    var q, r := s / 2 / m, s / 2 % m;
    var low := 2 * r + s % 2;
    assert s == 2 * (q * m + r) + s % 2 == q * (2 * m) + low;
    DivUnique(s, q, low, 2 * m);
  }

  lemma LastBit(n: nat, s: nat)
    requires n > 0
    ensures Bit(n, s, n - 1) == s % 2 && Node(n, s, n - 1) == Pow2(n - 1) + s / 2
  {
    assert Pow2(0) == 1 && Pow2(1) == 2;
  }

  lemma {:induction false} TreePuts(base: nat, ask: nat -> Question, n: nat, s: nat, size: nat)
    requires s < Pow2(n) <= size
    requires forall node :: 1 <= node < size ==> Askable(ask(node)) && Place(ask(node)) == base + node
    ensures PutsAll(TreePath(base, n, s), TreeAnswers(ask, n, s))
    decreases n
  {
    hide Pow2, Askable, Place;
    if n > 0 {
      PowerStep(n);
      TreePuts(base, ask, n - 1, s / 2, size);
      LastBit(n, s);
      forall k | 0 <= k < n - 1 ensures TreeAnswers(ask, n, s)[k] == TreeAnswers(ask, n - 1, s / 2)[k] {
        NodeHalf(n, s, k);
      }
      hide Bit, Node;
    }
  }

  lemma {:induction false} DirectPuts(n: nat, s: nat)
    ensures PutsAll(DirectPath(n, s), DirectAnswers(n, s))
    decreases n
  {
    hide Pow2;
    if n > 0 {
      DirectPuts(n - 1, s / 2);
      LastBit(n, s);
      forall k | 0 <= k < n - 1 ensures DirectAnswers(n, s)[k] == DirectAnswers(n - 1, s / 2)[k] {
        NodeHalf(n, s, k);
      }
      hide Bit, Node;
    }
  }

  lemma {:induction false} RevPuts(base: nat, ask: nat -> Question, n: nat, s: nat, size: nat)
    requires s < Pow2(n) <= size
    requires forall node :: 1 <= node < size ==> Askable(ask(node)) && Place(ask(node)) == base + node
    ensures PutsAll(RevPath(base, n, s), RevAnswers(ask, n, s))
    decreases n
  {
    hide Pow2, Askable, Place, RevNode;
    if n > 0 {
      PowerStep(n);
      LowBound(s, n - 1);
      RevPuts(base, ask, n - 1, Low(s, n - 1), size);
      RevNodeBound(n - 1, Low(s, n - 1));
      HighBit(s, n - 1);
      forall k | 0 <= k < n - 1 ensures RevAnswers(ask, n, s)[k] == RevAnswers(ask, n - 1, Low(s, n - 1))[k] {
        LowLow(s, k, n - 1);
      }
    }
  }

  /** Nodes of a reverse tree tell apart what came before them. */
  lemma {:induction false} RevNodesApart(k: nat, s: nat, t: nat)
    requires s < Pow2(k) && t < Pow2(k) && RevNode(k, s) == RevNode(k, t)
    ensures s == t
  {
    hide Pow2;
    if k > 0 {
      LowBound(s, k - 1);
      LowBound(t, k - 1);
      HighBit(s, k - 1);
      HighBit(t, k - 1);
      RevNodesApart(k - 1, Low(s, k - 1), Low(t, k - 1));
      ShlBelow(s, 0, k - 1);
      ShlBelow(t, 0, k - 1);
    } else {
      assert s == t == 0 by { PowerZero(); }
    }
  }

  lemma PowerZero()
    ensures Pow2(0) == 1
  {}

  lemma HighBit(s: nat, m: nat)
    requires s < Pow2(m + 1)
    ensures Shr(s, m) % 2 == Shr(s, m) < 2
  {
    PowerStep(m + 1);
    hide Pow2;
    QuotientBound(s, 2, Pow2(m));
  }

  /** The low bits of the low bits. */
  lemma LowLow(s: nat, k: nat, m: nat)
    requires k < m
    ensures Low(Low(s, m), k) == Low(s, k) && Shr(Low(s, m), k) % 2 == Shr(s, k) % 2
  {
    Pow2Add(m - k - 1, k);
    PowerStep(m - k);
    hide Pow2;
    Pow2Split(m, k);
    LowLowM(s, Pow2(k), Pow2(m - k - 1));
  }

  lemma Pow2Split(m: nat, k: nat)
    requires k < m
    ensures Pow2(m) == 2 * Pow2(m - k - 1) * Pow2(k)
  {
    Pow2Add(m - k, k);
    PowerStep(m - k);
  }

  lemma LowLowM(s: nat, a: nat, b: nat)
    requires a > 0 && b > 0
    ensures 2 * b * a > 0
    ensures s % (2 * b * a) % a == s % a && s % (2 * b * a) / a % 2 == s / a % 2
  {
    var m, q := 2 * b * a, s / (2 * b * a);
    var low := s % m;
    assert s == q * m + low;
    assert q * m == q * (2 * b) * a;
    DivShift(q * (2 * b), low, a);
    assert q * (2 * b) == q * b * 2;
    DivShift(q * b, low / a, 2);
  }

  lemma LastTree(n: nat, s: nat, matched: Option<byte>)
    requires 0 < n <= 8
    ensures LiteralTree(n, s, matched, n - 1) + Node(n, s, n - 1) == LitNode(n - 1, s / 2, matched)
  {
    LastBit(n, s);
    assert Pow2(1) == 2;
  }

  lemma NodeBound(n: nat, s: nat, k: nat)
    requires k < n && s < Pow2(n)
    ensures 1 <= Node(n, s, k) < Pow2(k + 1)
  {
    hide Pow2;
    Pow2Add(k, n - k);
    assert k + (n - k) == n;
    PowerStep(k + 1);
    QuotientBound(s, Pow2(k), Pow2(n - k));
  }

  lemma QuotientBound(s: nat, a: nat, m: nat)
    requires m > 0 && s < a * m
    ensures s / m < a
  {
    ShlBelowM(s, a, m);
  }

  /** The bits before the last one are put as for the shorter literal. */
  lemma LiteralShorter(coder: nat, n: nat, s: nat, matched: Option<byte>, k: nat)
    requires k + 1 < n <= 8
    ensures LiteralAnswers(coder, n, s, matched)[k] == LiteralAnswers(coder, n - 1, s / 2, matched)[k]
  {
    hide Pow2, Node, Bit, Shr;
    NodeHalf(n, s, k);
    Halve(s, n - k);
  }

  lemma LiteralLast(base: nat, coder: nat, n: nat, s: nat, matched: Option<byte>)
    requires 0 < n <= 8 && s < Pow2(n) && base == LITERAL + LIT_SIZE * coder
    ensures Puts(Ev(Prob(base + LitNode(n - 1, s / 2, matched)), s % 2), LiteralAnswers(coder, n, s, matched)[n - 1])
  {
    hide Pow2, LitNode, Node, Bit, Shr;
    LastBit(n, s);
    LastTree(n, s, matched);
    NodeBound(n, s, n - 1);
    TreeSizes();
    Pow2Monotone(n, 8);
  }

  lemma {:induction false} LiteralPuts(base: nat, coder: nat, n: nat, s: nat, matched: Option<byte>)
    requires n <= 8 && s < Pow2(n) && base == LITERAL + LIT_SIZE * coder
    ensures PutsAll(LitPath(base, n, s, matched), LiteralAnswers(coder, n, s, matched))
    decreases n
  {
    hide Pow2, LitNode, LiteralTree, Node, Bit, Puts;
    if n > 0 {
      PowerStep(n);
      LiteralPuts(base, coder, n - 1, s / 2, matched);
      LiteralLast(base, coder, n, s, matched);
      forall k | 0 <= k < n - 1
        ensures LiteralAnswers(coder, n, s, matched)[k] == LiteralAnswers(coder, n - 1, s / 2, matched)[k] {
        LiteralShorter(coder, n, s, matched, k);
      }
    }
  }

  lemma ChoicePuts(rep: bool)
    ensures PutsAll([Ev(Prob(LenBase(rep)), 0)], [Answer(Some(LenChoice(rep, false)), 0)])
  {}

  lemma ChoicesPuts(rep: bool, bit: nat)
    ensures PutsAll([Ev(Prob(LenBase(rep)), 1), Ev(Prob(LenBase(rep) + 1), bit)],
                    [Answer(Some(LenChoice(rep, false)), 1), Answer(Some(LenChoice(rep, true)), bit)])
  {}

  lemma LowLengthPuts(rep: bool, posState: nat, len: nat, ask: nat -> Question)
    requires posState < 16 && len < 8 && ask == ((node: nat) => LenLowBit(rep, posState, node))
    ensures PutsAll(TreePath(LenBase(rep) + LEN_LOW + posState * 8, 3, len), TreeAnswers(ask, 3, len))
  {
    hide TreePath, TreeAnswers, Pow2, PutsAll;
    TreeSizes();
    TreePuts(LenBase(rep) + LEN_LOW + posState * 8, ask, 3, len, 8);
  }

  lemma MidLengthPuts(rep: bool, posState: nat, len: nat, ask: nat -> Question)
    requires posState < 16 && len < 8 && ask == ((node: nat) => LenMidBit(rep, posState, node))
    ensures PutsAll(TreePath(LenBase(rep) + LEN_MID + posState * 8, 3, len), TreeAnswers(ask, 3, len))
  {
    hide TreePath, TreeAnswers, Pow2, PutsAll;
    TreeSizes();
    TreePuts(LenBase(rep) + LEN_MID + posState * 8, ask, 3, len, 8);
  }

  lemma HighLengthPuts(rep: bool, len: nat, ask: nat -> Question)
    requires len < 256 && ask == ((node: nat) => LenHighBit(rep, node))
    ensures PutsAll(TreePath(LenBase(rep) + LEN_HIGH, 8, len), TreeAnswers(ask, 8, len))
  {
    hide TreePath, TreeAnswers, Pow2, PutsAll;
    TreeSizes();
    TreePuts(LenBase(rep) + LEN_HIGH, ask, 8, len, 256);
  }

  lemma LengthPuts(rep: bool, posState: nat, len: nat)
    requires posState < 16 && len < 272
    ensures PutsAll(LenPath(LenBase(rep), posState, len), LengthAnswers(rep, posState, len))
  {
    hide TreePath, TreeAnswers, Pow2, PutsAll, LenBase;
    var base := LenBase(rep);
    if len < 8 {
      var ask := (node: nat) => LenLowBit(rep, posState, node);
      ChoicePuts(rep);
      LowLengthPuts(rep, posState, len, ask);
      PutsBoth([Ev(Prob(base), 0)], [Answer(Some(LenChoice(rep, false)), 0)],
               TreePath(base + LEN_LOW + posState * 8, 3, len), TreeAnswers(ask, 3, len));
    } else if len < 16 {
      var ask := (node: nat) => LenMidBit(rep, posState, node);
      ChoicesPuts(rep, 0);
      MidLengthPuts(rep, posState, len - 8, ask);
      PutsBoth([Ev(Prob(base), 1), Ev(Prob(base + 1), 0)],
               [Answer(Some(LenChoice(rep, false)), 1), Answer(Some(LenChoice(rep, true)), 0)],
               TreePath(base + LEN_MID + posState * 8, 3, len - 8), TreeAnswers(ask, 3, len - 8));
    } else {
      var ask := (node: nat) => LenHighBit(rep, node);
      ChoicesPuts(rep, 1);
      HighLengthPuts(rep, len - 16, ask);
      PutsBoth([Ev(Prob(base), 1), Ev(Prob(base + 1), 1)],
               [Answer(Some(LenChoice(rep, false)), 1), Answer(Some(LenChoice(rep, true)), 1)],
               TreePath(base + LEN_HIGH, 8, len - 16), TreeAnswers(ask, 8, len - 16));
    }
  }

  lemma DistancePuts(len: nat, slot: nat, foot: nat)
    requires slot < 64 && foot < Pow2(FooterBits(slot))
    ensures PutsAll(DistPath(len, slot, foot), DistanceAnswers(len, slot, foot))
  {
    hide TreePath, TreeAnswers, Pow2, FootPath;
    TreeSizes();
    var l := if len < 4 then len else 3;
    var ask := (node: nat) => SlotBit(l, node);
    TreePuts(POS_SLOT + l * 64, ask, 6, slot, 64);
    FooterPuts(slot, foot);
    PutsBoth(TreePath(POS_SLOT + l * 64, 6, slot), TreeAnswers(ask, 6, slot), FootPath(slot, foot),
             FooterAnswers(slot, foot));
  }

  lemma FooterPuts(slot: nat, foot: nat)
    requires slot < 64 && foot < Pow2(FooterBits(slot))
    ensures PutsAll(FootPath(slot, foot), FooterAnswers(slot, foot))
  {
    hide RevPath, RevAnswers, DirectPath, DirectAnswers, Pow2, SlotBase;
    TreeSizes();
    if 4 <= slot < 14 {
      SlotBaseAbove(slot);
      RevPuts(SPEC_POS - 1 + (SlotBase(slot) - slot), (node: nat) => SpecBit(slot, node), FooterBits(slot), foot,
              Pow2(FooterBits(slot)));
    } else if slot >= 14 {
      var n := FooterBits(slot) - 4;
      DirectPuts(n, foot / 16);
      RevPuts(ALIGN, (node: nat) => AlignBit(node), 4, foot % 16, 16);
      PutsBoth(DirectPath(n, foot / 16), DirectAnswers(n, foot / 16),
               RevPath(ALIGN, 4, foot % 16), RevAnswers((node: nat) => AlignBit(node), 4, foot % 16));
    }
  }

  // the bits that tell the kind of a packet

  lemma FirstPuts(s: nat, posState: nat, bit: nat)
    requires s < 12 && posState < 16
    ensures PutsAll([Ev(Prob(IS_MATCH + s * 16 + posState), bit)], [Answer(Some(IsMatch(s, posState)), bit)])
  {}

  lemma KindPuts(s: nat, posState: nat, rep: nat)
    requires s < 12 && posState < 16
    ensures PutsAll([Ev(Prob(IS_MATCH + s * 16 + posState), 1), Ev(Prob(IS_REP + s), rep)],
                    [Answer(Some(IsMatch(s, posState)), 1), Answer(Some(IsRep(s)), rep)])
  {}

  lemma ShortPuts(s: nat, posState: nat, long: nat)
    requires s < 12 && posState < 16
    ensures PutsAll([Ev(Prob(IS_REP_G0 + s), 0), Ev(Prob(IS_REP0_LONG + s * 16 + posState), long)],
                    [Answer(Some(IsRepG0(s)), 0), Answer(Some(IsRep0Long(s, posState)), long)])
  {}

  lemma WhichPuts(s: nat, which: nat)
    requires s < 12 && 1 <= which < 4
    ensures PutsAll(if which == 1 then [Ev(Prob(IS_REP_G0 + s), 1), Ev(Prob(IS_REP_G1 + s), 0)]
                    else [Ev(Prob(IS_REP_G0 + s), 1), Ev(Prob(IS_REP_G1 + s), 1), Ev(Prob(IS_REP_G2 + s), which - 2)],
                    [Answer(Some(IsRepG0(s)), 1)] + if which == 1 then [Answer(Some(IsRepG1(s)), 0)]
                    else [Answer(Some(IsRepG1(s)), 1), Answer(Some(IsRepG2(s)), which - 2)])
  {}

  /** Every bit of a packet answers its question, and the probability used for it is the one
      at the place of that question. */
  lemma PacketPuts(c: Props, lz: Lz, p: Packet)
    requires c.Valid() && lz.state < 12 && Encodable(p)
    ensures PutsAll(Events(c, lz, p), Answers(c, lz, p))
  {
    hide LenPath, DistPath, LitPath, LiteralAnswers, LengthAnswers, DistanceAnswers, Pow2, PutsAll, Low, Shl, Shr;
    PosStateSmall(c, lz);
    var s, posState := lz.state, PosState(c, lz);
    match p
    case Literal(b) =>
      var coder := Shl(Low(|lz.out|, c.lp), c.lc) + Shr(PreviousByte(lz.out), 8 - c.lc);
      ByteBelow(b);
      FirstPuts(s, posState, 0);
      LiteralPuts(LiteralBase(c, lz), coder, 8, b, Matched(lz));
      PutsBoth([Ev(Prob(IS_MATCH + s * 16 + posState), 0)], [Answer(Some(IsMatch(s, posState)), 0)],
               LitPath(LiteralBase(c, lz), 8, b, Matched(lz)), LiteralAnswers(coder, 8, b, Matched(lz)));
    case Match(len, slot, foot) =>
      KindPuts(s, posState, 0);
      LengthPuts(false, posState, len);
      DistancePuts(len, slot, foot);
      PutsBoth(LenPath(LEN_CODER, posState, len), LengthAnswers(false, posState, len),
               DistPath(len, slot, foot), DistanceAnswers(len, slot, foot));
      PutsBoth([Ev(Prob(IS_MATCH + s * 16 + posState), 1), Ev(Prob(IS_REP + s), 0)],
               [Answer(Some(IsMatch(s, posState)), 1), Answer(Some(IsRep(s)), 0)],
               LenPath(LEN_CODER, posState, len) + DistPath(len, slot, foot),
               LengthAnswers(false, posState, len) + DistanceAnswers(len, slot, foot));
    case ShortRep => ShortRepPuts(c, lz);
    case Rep(which, len) => RepPuts(c, lz, which, len);
  }

  lemma PosStateSmall(c: Props, lz: Lz)
    requires c.Valid()
    ensures PosState(c, lz) == Low(|lz.out|, c.pb) < 16
  {
    LowBound(|lz.out|, c.pb);
    Pow2Monotone(c.pb, 4);
    TreeSizes();
  }

  lemma ByteBelow(b: byte)
    ensures b as int < Pow2(8)
  {
    TreeSizes();
  }

  lemma ShortRepPuts(c: Props, lz: Lz)
    requires c.Valid() && lz.state < 12
    ensures PutsAll(Events(c, lz, ShortRep), Answers(c, lz, ShortRep))
  {
    hide PutsAll, Low, Shl, Shr;
    PosStateSmall(c, lz);
    var s, posState := lz.state, PosState(c, lz);
    KindPuts(s, posState, 1);
    ShortPuts(s, posState, 0);
    PutsBoth([Ev(Prob(IS_MATCH + s * 16 + posState), 1), Ev(Prob(IS_REP + s), 1)],
             [Answer(Some(IsMatch(s, posState)), 1), Answer(Some(IsRep(s)), 1)],
             [Ev(Prob(IS_REP_G0 + s), 0), Ev(Prob(IS_REP0_LONG + s * 16 + posState), 0)],
             [Answer(Some(IsRepG0(s)), 0), Answer(Some(IsRep0Long(s, posState)), 0)]);
    assert Events(c, lz, ShortRep)
           == [Ev(Prob(IS_MATCH + s * 16 + posState), 1), Ev(Prob(IS_REP + s), 1)]
              + [Ev(Prob(IS_REP_G0 + s), 0), Ev(Prob(IS_REP0_LONG + s * 16 + posState), 0)];
    assert Answers(c, lz, ShortRep)
           == [Answer(Some(IsMatch(s, posState)), 1), Answer(Some(IsRep(s)), 1)]
              + [Answer(Some(IsRepG0(s)), 0), Answer(Some(IsRep0Long(s, posState)), 0)];
  }

  lemma RepPuts(c: Props, lz: Lz, which: nat, len: nat)
    requires c.Valid() && lz.state < 12 && which < 4 && len < 272
    ensures PutsAll(Events(c, lz, Rep(which, len)), Answers(c, lz, Rep(which, len)))
  {
    hide PutsAll, LenPath, LengthAnswers, Low, Shl, Shr;
    PosStateSmall(c, lz);
    var s, posState := lz.state, PosState(c, lz);
    var (es, answers) := RepHead(s, posState, which);
    KindPuts(s, posState, 1);
    if which == 0 { ShortPuts(s, posState, 1); } else { WhichPuts(s, which); }
    PutsBoth([Ev(Prob(IS_MATCH + s * 16 + posState), 1), Ev(Prob(IS_REP + s), 1)],
             [Answer(Some(IsMatch(s, posState)), 1), Answer(Some(IsRep(s)), 1)], es, answers);
    LengthPuts(true, posState, len);
    PutsBoth([Ev(Prob(IS_MATCH + s * 16 + posState), 1), Ev(Prob(IS_REP + s), 1)] + es,
             [Answer(Some(IsMatch(s, posState)), 1), Answer(Some(IsRep(s)), 1)] + answers,
             LenPath(REP_LEN_CODER, posState, len), LengthAnswers(true, posState, len));
    assert Events(c, lz, Rep(which, len))
           == ([Ev(Prob(IS_MATCH + s * 16 + posState), 1), Ev(Prob(IS_REP + s), 1)] + es)
              + LenPath(REP_LEN_CODER, posState, len);
  }

  /** The bits that tell which of the four distances is used. */
  function RepHead(s: nat, posState: nat, which: nat): (seq<Ev>, seq<Answer>)
    requires which < 4
  {
    if which == 0 then
      ([Ev(Prob(IS_REP_G0 + s), 0), Ev(Prob(IS_REP0_LONG + s * 16 + posState), 1)],
       [Answer(Some(IsRepG0(s)), 0), Answer(Some(IsRep0Long(s, posState)), 1)])
    else
      (if which == 1 then [Ev(Prob(IS_REP_G0 + s), 1), Ev(Prob(IS_REP_G1 + s), 0)]
       else [Ev(Prob(IS_REP_G0 + s), 1), Ev(Prob(IS_REP_G1 + s), 1), Ev(Prob(IS_REP_G2 + s), which - 2)],
       [Answer(Some(IsRepG0(s)), 1)] + if which == 1 then [Answer(Some(IsRepG1(s)), 0)]
                                       else [Answer(Some(IsRepG1(s)), 1), Answer(Some(IsRepG2(s)), which - 2)])
  }
}
