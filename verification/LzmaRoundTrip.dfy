/** Decoding inverts coding, for whole LZMA streams. */
module LzmaRoundTrip {
  import opened Wrappers
  import opened PowersOfTwo
  import opened LzmaRange
  import opened LzmaPackets
  import opened LzmaUnique
  import opened LzmaStream

  // ----- every context of every packet is in the probability table

  predicate Within(size: nat, t: seq<Ev>) {
    forall k | 0 <= k < |t| :: t[k].bit < 2 && (t[k].ctx.Prob? ==> t[k].ctx.index < size)
  }

  lemma {:induction false} TreeWithin(size: nat, base: nat, n: nat, s: nat)
    requires s < Pow2(n) && base + Pow2(n) <= size
    ensures Within(size, TreePath(base, n, s))
    decreases n
  {
    if n > 0 { TreeWithin(size, base, n - 1, s / 2); }
  }

  lemma {:induction false} DirectWithin(size: nat, n: nat, s: nat)
    ensures Within(size, DirectPath(n, s))
    decreases n
  {
    if n > 0 { DirectWithin(size, n - 1, s / 2); }
  }

  lemma {:induction false} RevWithin(size: nat, base: nat, n: nat, s: nat)
    requires s < Pow2(n) && base + Pow2(n) <= size
    ensures Within(size, RevPath(base, n, s))
    decreases n
  {
    hide Shr, Low, RevNode;
    if n > 0 {
      LowBound(s, n - 1);
      ShlBelow(s, 2, n - 1);
      RevWithin(size, base, n - 1, Low(s, n - 1));
      RevNodeBound(n - 1, Low(s, n - 1));
    }
  }

  lemma {:induction false} LitWithin(size: nat, base: nat, n: nat, s: nat, matched: Option<byte>)
    requires n <= 8 && s < Pow2(n) && base + LIT_SIZE <= size
    ensures Within(size, LitPath(base, n, s, matched))
    decreases n
  {
    hide Shr;
    if n > 0 {
      TreeSizes();
      Pow2Monotone(n, 8);
      LitWithin(size, base, n - 1, s / 2, matched);
    }
  }

  lemma LenWithin(size: nat, base: nat, posState: nat, len: nat)
    requires posState < 16 && len < 272 && base + NUM_LEN_PROBS <= size
    ensures Within(size, LenPath(base, posState, len))
  {
    hide TreePath, Pow2;
    TreeSizes();
    if len < 8 {
      TreeWithin(size, base + LEN_LOW + posState * 8, 3, len);
    } else if len < 16 {
      TreeWithin(size, base + LEN_MID + posState * 8, 3, len - 8);
    } else {
      TreeWithin(size, base + LEN_HIGH, 8, len - 16);
    }
  }

  lemma DistWithin(size: nat, len: nat, slot: nat, foot: nat)
    requires LITERAL <= size && slot < 64 && foot < Pow2(FooterBits(slot))
    ensures Within(size, DistPath(len, slot, foot))
  {
    hide TreePath, RevPath, DirectPath, Pow2, SlotBase;
    TreeSizes();
    TreeWithin(size, POS_SLOT + (if len < 4 then len else 3) * 64, 6, slot);
    if 4 <= slot < 14 {
      SlotBaseAbove(slot);
      RevWithin(size, SPEC_POS - 1 + (SlotBase(slot) - slot), FooterBits(slot), foot);
    } else if slot >= 14 {
      DirectWithin(size, FooterBits(slot) - 4, foot / 16);
      RevWithin(size, ALIGN, 4, foot % 16);
    }
  }

  lemma LiteralBaseWithin(c: Props, lz: Lz)
    requires c.Valid()
    ensures LiteralBase(c, lz) + LIT_SIZE <= c.NumProbs()
  {
    hide Shl, Shr, Low, Pow2, PreviousByte;
    LiteralInTable(c, |lz.out|, PreviousByte(lz.out));
  }

  lemma EventsWithin(c: Props, lz: Lz, p: Packet)
    requires c.Valid() && lz.state < 12 && Encodable(p)
    ensures Within(c.NumProbs(), Events(c, lz, p))
  {
    hide LenPath, DistPath, LitPath, Pow2, Low, LiteralBase, Matched;
    LowBound(|lz.out|, c.pb);
    Pow2Monotone(c.pb, 4);
    TreeSizes();
    var posState := PosState(c, lz);
    match p
    case Literal(b) =>
      LiteralBaseWithin(c, lz);
      LitWithin(c.NumProbs(), LiteralBase(c, lz), 8, b, Matched(lz));
    case Match(len, slot, foot) =>
      LenWithin(c.NumProbs(), LEN_CODER, posState, len);
      DistWithin(c.NumProbs(), len, slot, foot);
    case ShortRep =>
    case Rep(which, len) =>
      LenWithin(c.NumProbs(), REP_LEN_CODER, posState, len);
  }

  /** Twelve states. */
  lemma StateBound(lz: Lz, p: Packet, limit: nat)
    requires lz.state < 12 && Apply(lz, p, limit).Some?
    ensures Apply(lz, p, limit).value.state < 12
  {
    hide CopyBytes, Distance;
  }

  lemma {:induction false} EncodeWithin(c: Props, lz: Lz, ps: seq<Packet>, limit: nat)
    requires c.Valid() && lz.state < 12 && AllEncodable(ps)
    ensures Within(c.NumProbs(), Encode(c, lz, ps, limit))
    decreases |ps|
  {
    hide Events, Apply, Encodable, Pow2;
    if ps != [] {
      EventsWithin(c, lz, ps[0]);
      if Apply(lz, ps[0], limit).Some? {
        StateBound(lz, ps[0], limit);
        EncodeWithin(c, Apply(lz, ps[0], limit).value, ps[1..], limit);
      }
    }
  }

  lemma EncodeValid(c: Props, ps: seq<Packet>, limit: nat)
    requires c.Valid() && AllEncodable(ps)
    ensures GoodInterval(WholeInterval(c)) && ValidTrace(WholeInterval(c).probs, Encode(c, START, ps, limit))
  {
    hide Encode, AllEncodable, Pow2;
    EncodeWithin(c, START, ps, limit);
  }

  // ----- the interval of a packet list

  /** The interval that stands for all streams. */
  ghost function WholeInterval(c: Props): Interval {
    Interval(0, WORD - 1, 0, seq(c.NumProbs(), i => 1024))
  }

  /** The numbers of the streams that code these packets. */
  ghost function Code(c: Props, ps: seq<Packet>, limit: nat): (e: Interval)
    requires c.Valid() && AllEncodable(ps)
    ensures GoodInterval(e)
  {
    EncodeValid(c, ps, limit);
    NarrowAll(WholeInterval(c), Encode(c, START, ps, limit))
  }

  /** `LzmaDecode` reads these packets from a stream, with `Code < Range` at every step,
      exactly when the number the stream spells lies in the interval that coding assigns to
      them, and one more byte is there if the last normalization needs it. */
  lemma DecodesExact(c: Props, input: seq<byte>, limit: nat, ps: seq<Packet>, lz: Lz)
    requires c.Valid() && AllEncodable(ps) && Finish(START, ps, limit) == Some(lz)
    ensures var e := Code(c, ps, limit);
            Inside(input, e) && 5 + Widen(e).shifts <= |input|
            <==> 5 <= |input| && Decodes(c, input, limit, ps, lz, 5 + Widen(e).shifts)
                 && StaysBelow(input, StartMachine(input, c), Encode(c, START, ps, limit))
  {
    hide Finish, Encode, AllEncodable, Pow2, Run, Normalize, Narrow, NarrowAll, Inside, StaysBelow, InStep, Widen;
    EncodeValid(c, ps, limit);
    var e, trace := Code(c, ps, limit), Encode(c, START, ps, limit);
    if 5 <= |input| {
      var whole, start := WholeInterval(c), StartMachine(input, c);
      if Inside(input, e) { NarrowAllNested(input, whole, trace); }
      StartsInStep(input, c, trace);
      if InStep(input, start, whole) {
        RunExact(input, start, whole, trace);
        if Inside(input, e) {
          RunInStep(input, start, whole, trace);
          NormalizeExact(input, Run(input, start, trace).value, e);
          NextIs(input, Run(input, start, trace).value, e);
        }
      }
    } else {
      InsideLong(input, e);
    }
  }

  lemma InsideLong(input: seq<byte>, e: Interval)
    ensures Inside(input, e) ==> 5 <= |input|
  {}

  lemma NextIs(input: seq<byte>, m: Machine, e: Interval)
    requires InStep(input, m, e)
    ensures Normalize(input, m).Some? ==> Normalize(input, m).value.next == 5 + Widen(e).shifts
  {}

  lemma StartsInStep(input: seq<byte>, c: Props, trace: seq<Ev>)
    requires 5 <= |input|
    ensures InStep(input, StartMachine(input, c), WholeInterval(c)) <==> Inside(input, WholeInterval(c))
    ensures StaysBelow(input, StartMachine(input, c), trace) ==> Inside(input, WholeInterval(c))
  {
    hide Step;
  }

  /** Decoder and interval are still in step after the whole trace. */
  lemma {:induction false} RunInStep(input: seq<byte>, m: Machine, e: Interval, trace: seq<Ev>)
    requires GoodInterval(e) && ValidTrace(e.probs, trace) && InStep(input, m, e) && Inside(input, NarrowAll(e, trace))
    ensures Run(input, m, trace).Some? && InStep(input, Run(input, m, trace).value, NarrowAll(e, trace))
    decreases |trace|
  {
    hide Inside, Step, Narrow, InStep;
    if trace != [] {
      NarrowGood(e, trace[0]);
      NarrowAllNested(input, Narrow(e, trace[0]), trace[1..]);
      StepExact(input, m, e, trace[0]);
      RunInStep(input, Step(input, m, trace[0]).value, Narrow(e, trace[0]), trace[1..]);
    }
  }

  // ----- a stream for every packet list

  /** One more than the largest number that 4 + k bytes spell. */
  function Scale(k: nat): (r: nat)
    ensures r >= WORD
  {
    if k == 0 then WORD else Scale(k - 1) * 256
  }

  /** A zero byte, and 4 + k bytes that spell `v`. */
  function Bytes(v: nat, k: nat): (r: seq<byte>)
    requires v < Scale(k)
    ensures |r| == 5 + k
  {
    if k == 0 then [0, v / 0x100_0000, v / 0x1_0000 % 0x100, v / 0x100 % 0x100, v % 0x100]
    else Bytes(v / 256, k - 1) + [v % 256]
  }

  lemma FourBytes(v: nat)
    requires v < WORD
    ensures v == ((v / 0x100_0000 * 256 + v / 0x1_0000 % 0x100) * 256 + v / 0x100 % 0x100) * 256 + v % 0x100
  {}

  lemma {:induction false} BytesSpell(v: nat, k: nat, more: seq<byte>)
    requires v < Scale(k)
    ensures Spelled(Bytes(v, k) + more, k) == v
    decreases k
  {
    if k == 0 {
      FourBytes(v);
    } else {
      BytesSpell(v / 256, k - 1, [v % 256] + more);
      assert Bytes(v, k) + more == Bytes(v / 256, k - 1) + ([v % 256] + more);
    }
  }

  predicate Fits(e: Interval) { e.low + e.range <= Scale(e.shifts) }

  lemma NarrowFits(e: Interval, ev: Ev)
    requires GoodInterval(e) && ValidEvent(e.probs, ev) && Fits(e)
    ensures Fits(Narrow(e, ev))
  {
    hide ZeroPart;
    WidenGood(e);
    ZeroPartBounds(Widen(e).range, e.probs, ev.ctx);
  }

  lemma WidenGood(e: Interval)
    requires GoodInterval(e)
    ensures TOP_VALUE <= Widen(e).range
  {}

  lemma {:induction false} NarrowAllFits(e: Interval, trace: seq<Ev>)
    requires GoodInterval(e) && ValidTrace(e.probs, trace) && Fits(e)
    ensures Fits(NarrowAll(e, trace))
    decreases |trace|
  {
    hide Narrow, Fits;
    if trace != [] {
      NarrowGood(e, trace[0]);
      NarrowFits(e, trace[0]);
      NarrowAllFits(Narrow(e, trace[0]), trace[1..]);
    }
  }

  lemma CodeFits(c: Props, ps: seq<Packet>, limit: nat)
    requires c.Valid() && AllEncodable(ps)
    ensures var e := Code(c, ps, limit); e.low < Scale(e.shifts)
  {
    hide Encode, AllEncodable, Pow2, NarrowAll;
    EncodeValid(c, ps, limit);
    NarrowAllFits(WholeInterval(c), Encode(c, START, ps, limit));
  }

  /** A coder: the lowest number of the interval, and one byte to spare. */
  ghost function Coded(c: Props, ps: seq<Packet>, limit: nat): seq<byte>
    requires c.Valid() && AllEncodable(ps)
  {
    CodeFits(c, ps, limit);
    var e := Code(c, ps, limit);
    Bytes(e.low, e.shifts) + [0]
  }

  /** Decoding inverts coding: for every complete list of packets, the decoder reads this
      list, and no other, from the stream that the coder makes of it. */
  lemma RoundTrip(c: Props, limit: nat, ps: seq<Packet>, lz: Lz)
    requires c.Valid() && AllEncodable(ps) && Finish(START, ps, limit) == Some(lz)
    ensures Decodes(c, Coded(c, ps, limit), limit, ps, lz, 5 + Widen(Code(c, ps, limit)).shifts)
  {
    hide Finish, Encode, AllEncodable, Pow2, NarrowAll, Decodes, StaysBelow;
    CodeFits(c, ps, limit);
    var e := Code(c, ps, limit);
    BytesSpell(e.low, e.shifts, [0]);
    DecodesExact(c, Coded(c, ps, limit), limit, ps, lz);
  }
}
