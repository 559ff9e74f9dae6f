/** The adaptive binary range decoder of LZMA, and the theorem that it inverts coding.

    A decoding step asks for one bit in a context: an adaptive probability, or `Direct`
    for an equiprobable bit.  A trace lists the contexts asked for and the bits returned.
    The coding side is given as interval subdivision: a trace owns an interval of numbers,
    and a stream stands for the number its bytes spell. */
module LzmaRange {
  import opened Wrappers

  type byte = b: int | 0 <= b < 256

  const TOP_VALUE: nat := 0x100_0000
  const WORD: nat := 0x1_0000_0000
  const BIT_MODEL_TOTAL: nat := 2048
  const MIN_PROB: nat := 31
  const MAX_PROB: nat := 2017
  /** No step leaves a smaller range than this. */
  const MIN_RANGE: nat := 253952

  datatype Ctx = Prob(index: nat) | Direct
  datatype Ev = Ev(ctx: Ctx, bit: nat)

  /** `Range`, `Code`, the index of the next input byte, and the probabilities. */
  datatype Machine = Machine(range: nat, code: nat, next: nat, probs: seq<nat>)

  /** `RC_NORMALIZE`; fails at the end of the input. */
  function Normalize(input: seq<byte>, m: Machine): Option<Machine> {
    if m.range >= TOP_VALUE then Some(m)
    else if m.next >= |input| then None
    else Some(m.(range := m.range * 256, code := (m.code * 256 + input[m.next]) % WORD, next := m.next + 1))
  }

  /** The part of the range that stands for a zero bit. */
  function ZeroPart(range: nat, probs: seq<nat>, ctx: Ctx): nat {
    match ctx
    case Prob(i) => if i < |probs| then range / BIT_MODEL_TOTAL * probs[i] else 0
    case Direct => range / 2
  }

  function Adapt(p: nat, bit: nat): nat {
    if bit == 0 then (if p <= BIT_MODEL_TOTAL then p + (BIT_MODEL_TOTAL - p) / 32 else p) else p - p / 32
  }

  function AdaptAll(probs: seq<nat>, ev: Ev): seq<nat> {
    match ev.ctx
    case Prob(i) => if i < |probs| then probs[i := Adapt(probs[i], ev.bit)] else probs
    case Direct => probs
  }

  /** The range kept by a bit: a direct bit halves it either way. */
  function RangeAfter(range: nat, probs: seq<nat>, ev: Ev): int {
    if ev.bit == 0 || ev.ctx.Direct? then ZeroPart(range, probs, ev.ctx) else range - ZeroPart(range, probs, ev.ctx)
  }

  /** One decoding step that returns `ev.bit`; fails if the step returns the other bit. */
  function Step(input: seq<byte>, m: Machine, ev: Ev): Option<Machine> {
    match Normalize(input, m)
    case None => None
    case Some(n) =>
      var zero := ZeroPart(n.range, n.probs, ev.ctx);
      var range := RangeAfter(n.range, n.probs, ev);
      if ev.bit == (if n.code < zero then 0 else 1) && range >= 0 && (ev.ctx.Prob? ==> ev.ctx.index < |m.probs|)
      then Some(Machine(range, if ev.bit == 0 then n.code else n.code - zero, n.next, AdaptAll(n.probs, ev)))
      else None
  }

  /** The decoder, asked for the contexts of `trace`, returns its bits. */
  function Run(input: seq<byte>, m: Machine, trace: seq<Ev>): Option<Machine>
    decreases |trace|
  {
    if trace == [] then Some(m)
    else match Step(input, m, trace[0])
      case None => None
      case Some(n) => Run(input, n, trace[1..])
  }

  lemma {:induction false} RunAppend(input: seq<byte>, m: Machine, a: seq<Ev>, b: seq<Ev>)
    ensures Run(input, m, a + b) == match Run(input, m, a) { case None => None case Some(n) => Run(input, n, b) }
    decreases |a|
  {
    hide Step;
    if a == [] {
      assert a + b == b;
    } else {
      assert (a + b)[0] == a[0] && (a + b)[1..] == a[1..] + b;
      match Step(input, m, a[0])
      case None =>
      case Some(n) => RunAppend(input, n, a[1..], b);
    }
  }

  // ----- arithmetic bounds

  predicate GoodProbs(probs: seq<nat>) {
    forall i | 0 <= i < |probs| :: MIN_PROB <= probs[i] <= MAX_PROB
  }

  /** The state between steps: no underflow of the range, and everything in 32 bits. */
  predicate Good(m: Machine) {
    GoodProbs(m.probs) && MIN_RANGE <= m.range < WORD && m.code < WORD
  }

  lemma AdaptBounds(p: nat, bit: nat)
    requires MIN_PROB <= p <= MAX_PROB
    ensures MIN_PROB <= Adapt(p, bit) <= MAX_PROB
  {}

  /** A bit moves its probability one part in 32 of the way to certainty, rounded toward
      where it is. */
  lemma AdaptRate(p: nat)
    requires MIN_PROB <= p <= MAX_PROB
    ensures 32 * p <= 32 * Adapt(p, 0) <= 31 * p + 2048 < 32 * Adapt(p, 0) + 32
    ensures 32 * p >= 32 * Adapt(p, 1) >= 31 * p > 32 * Adapt(p, 1) - 32
  {}

  /** The share of the range for a zero bit is its probability in parts of 2048, less than
      one part of it lost to rounding; without a model it is half. */
  lemma ZeroShare(range: nat, probs: seq<nat>, ctx: Ctx)
    requires GoodProbs(probs) && (ctx.Prob? ==> ctx.index < |probs|)
    ensures var zero := ZeroPart(range, probs, ctx);
            match ctx
            case Prob(i) => 2048 * zero <= range * probs[i] < 2048 * zero + 2048 * probs[i]
            case Direct => 2 * zero <= range <= 2 * zero + 1
  {
    if ctx.Prob? {
      var q, r, p := range / BIT_MODEL_TOTAL, range % BIT_MODEL_TOTAL, probs[ctx.index];
      assert range == q * BIT_MODEL_TOTAL + r;
      ShareM(q, r, p);
    }
  }

  lemma ShareM(q: nat, r: nat, p: nat)
    requires r < 2048 && 0 < p
    ensures 2048 * (q * p) <= (q * 2048 + r) * p < 2048 * (q * p) + 2048 * p
  {
    assert (q * 2048 + r) * p == 2048 * (q * p) + r * p;
    assert (2048 - r) * p > 0;
  }

  lemma MulBounds(q: nat, p: nat)
    requires q >= 8192 && MIN_PROB <= p <= MAX_PROB
    ensures MIN_RANGE <= q * p <= q * MAX_PROB
  {
    assert q * p >= 8192 * p by { assert (q - 8192) * p >= 0; }
    assert q * (MAX_PROB - p) >= 0;
  }

  /** One normalization always brings the range back to 2^24 without overflow, and each
      step leaves a state from which that is true again. */
  lemma StepGood(input: seq<byte>, m: Machine, ev: Ev)
    requires Good(m) && Step(input, m, ev).Some?
    ensures Good(Step(input, m, ev).value)
    ensures var n := Normalize(input, m).value; TOP_VALUE <= n.range < WORD && n.code < WORD
  {
    var n := Normalize(input, m).value;
    assert m.range < TOP_VALUE ==> MIN_RANGE * 256 > TOP_VALUE;
    match ev.ctx
    case Prob(i) =>
      MulBounds(n.range / BIT_MODEL_TOTAL, n.probs[i]);
      AdaptBounds(n.probs[i], ev.bit);
      assert n.range / BIT_MODEL_TOTAL * BIT_MODEL_TOTAL <= n.range;
    case Direct =>
  }

  lemma {:induction false} RunGood(input: seq<byte>, m: Machine, trace: seq<Ev>)
    requires Good(m) && Run(input, m, trace).Some?
    ensures Good(Run(input, m, trace).value)
    decreases |trace|
  {
    hide Step, Good;
    if trace != [] {
      StepGood(input, m, trace[0]);
      RunGood(input, Step(input, m, trace[0]).value, trace[1..]);
    }
  }

  // ----- coding as interval subdivision

  /** A trace owns the numbers from `low` to `low + range`, at a scale of `shifts` bytes. */
  datatype Interval = Interval(low: nat, range: int, shifts: nat, probs: seq<nat>)

  function Widen(e: Interval): Interval {
    if e.range >= TOP_VALUE then e else e.(low := e.low * 256, range := e.range * 256, shifts := e.shifts + 1)
  }

  /** The part of the interval that stands for one more event. */
  function Narrow(e: Interval, ev: Ev): Interval
    requires e.range >= 0
  {
    var w := Widen(e);
    var zero := ZeroPart(w.range, w.probs, ev.ctx);
    Interval(if ev.bit == 0 then w.low else w.low + zero,
             RangeAfter(w.range, w.probs, ev), w.shifts, AdaptAll(w.probs, ev))
  }

  ghost predicate GoodInterval(e: Interval) {
    GoodProbs(e.probs) && MIN_RANGE <= e.range < WORD
  }

  predicate ValidEvent(probs: seq<nat>, ev: Ev) {
    ev.bit < 2 && (ev.ctx.Prob? ==> ev.ctx.index < |probs|)
  }

  predicate ValidTrace(probs: seq<nat>, trace: seq<Ev>) {
    forall k | 0 <= k < |trace| :: ValidEvent(probs, trace[k])
  }

  /** The two bits share the interval: zero has the lower part, one what follows it, up to
      the end or, without a model, up to the last odd number; and no probability changes
      but that of the bit. */
  lemma BitsShare(e: Interval, ctx: Ctx)
    requires e.range >= 0 && GoodProbs(e.probs) && (ctx.Prob? ==> ctx.index < |e.probs|)
    ensures var w, zero, one := Widen(e), Narrow(e, Ev(ctx, 0)), Narrow(e, Ev(ctx, 1));
            && zero.low == w.low && one.low == zero.low + zero.range
            && zero.range + one.range == (if ctx.Direct? then w.range - w.range % 2 else w.range)
            && |zero.probs| == |one.probs| == |e.probs|
            && forall i | 0 <= i < |e.probs| && ctx != Prob(i) :: zero.probs[i] == one.probs[i] == e.probs[i]
  {}

  lemma NarrowGood(e: Interval, ev: Ev)
    requires GoodInterval(e) && ValidEvent(e.probs, ev)
    ensures GoodInterval(Narrow(e, ev)) && |Narrow(e, ev).probs| == |e.probs|
  {
    var w := Widen(e);
    match ev.ctx
    case Prob(i) =>
      MulBounds(w.range / BIT_MODEL_TOTAL, w.probs[i]);
      AdaptBounds(w.probs[i], ev.bit);
      assert w.range / BIT_MODEL_TOTAL * BIT_MODEL_TOTAL <= w.range;
    case Direct =>
  }

  ghost function NarrowAll(e: Interval, trace: seq<Ev>): (r: Interval)
    requires GoodInterval(e) && ValidTrace(e.probs, trace)
    ensures GoodInterval(r)
    decreases |trace|
  {
    if trace == [] then e
    else
      NarrowGood(e, trace[0]);
      NarrowAll(Narrow(e, trace[0]), trace[1..])
  }

  /** The number spelled by the four bytes after the first and `k` more. */
  function Spelled(input: seq<byte>, k: nat): nat
    requires 5 + k <= |input|
  {
    if k == 0 then ((input[1] * 256 + input[2]) * 256 + input[3]) * 256 + input[4]
    else Spelled(input, k - 1) * 256 + input[4 + k]
  }

  /** The stream is long enough and its number lies in the interval. */
  predicate Inside(input: seq<byte>, e: Interval) {
    5 + e.shifts <= |input| && e.low <= Spelled(input, e.shifts) < e.low + e.range
  }

  /** Every step keeps `Code < Range`. */
  predicate StaysBelow(input: seq<byte>, m: Machine, trace: seq<Ev>)
    decreases |trace|
  {
    m.code < m.range &&
    (trace == [] || match Step(input, m, trace[0])
                    case None => false
                    case Some(n) => StaysBelow(input, n, trace[1..]))
  }

  /** Decoder and interval are at the same point of the same trace. */
  ghost predicate InStep(input: seq<byte>, m: Machine, e: Interval) {
    && m.range == e.range && m.probs == e.probs && m.next == 5 + e.shifts <= |input|
    && m.code < m.range && Spelled(input, e.shifts) == e.low + m.code
  }

  /** The numbers of a narrower interval lie in the wider one. */
  lemma NarrowNested(input: seq<byte>, e: Interval, ev: Ev)
    requires GoodInterval(e) && ValidEvent(e.probs, ev) && Inside(input, Narrow(e, ev))
    ensures Inside(input, e) && 5 + Widen(e).shifts <= |input| && Inside(input, Widen(e))
  {
    var w, n := Widen(e), Narrow(e, ev);
    match ev.ctx
    case Prob(i) => MulBounds(w.range / BIT_MODEL_TOTAL, w.probs[i]);
    case Direct =>
  }

  lemma {:induction false} NarrowAllNested(input: seq<byte>, e: Interval, trace: seq<Ev>)
    requires GoodInterval(e) && ValidTrace(e.probs, trace) && Inside(input, NarrowAll(e, trace))
    ensures Inside(input, e)
    decreases |trace|
  {
    hide Inside, Narrow;
    if trace != [] {
      NarrowGood(e, trace[0]);
      NarrowAllNested(input, Narrow(e, trace[0]), trace[1..]);
      NarrowNested(input, e, trace[0]);
    }
  }

  lemma ZeroPartBounds(range: nat, probs: seq<nat>, ctx: Ctx)
    requires GoodProbs(probs) && TOP_VALUE <= range && (ctx.Prob? ==> ctx.index < |probs|)
    ensures 0 < ZeroPart(range, probs, ctx) < range
    ensures ctx.Direct? ==> 2 * ZeroPart(range, probs, ctx) <= range
  {
    match ctx
    case Prob(i) => MulBounds(range / BIT_MODEL_TOTAL, probs[i]);
    case Direct =>
  }

  /** Normalizing the decoder is widening the interval by one byte. */
  lemma NormalizeExact(input: seq<byte>, m: Machine, e: Interval)
    requires GoodInterval(e) && InStep(input, m, e)
    ensures TOP_VALUE <= Widen(e).range
    ensures Normalize(input, m).Some? <==> 5 + Widen(e).shifts <= |input|
    ensures Normalize(input, m).Some? ==> InStep(input, Normalize(input, m).value, Widen(e))
  {
    if e.range < TOP_VALUE && m.next < |input| {
      assert Spelled(input, e.shifts + 1) == Spelled(input, e.shifts) * 256 + input[m.next];
    }
  }

  /** One step: the decoder returns a bit, and stays below its range, exactly when the
      stream lies in the part of the interval that stands for this bit. */
  lemma StepExact(input: seq<byte>, m: Machine, e: Interval, ev: Ev)
    requires GoodInterval(e) && ValidEvent(e.probs, ev) && InStep(input, m, e)
    ensures Inside(input, Narrow(e, ev)) <==>
              Step(input, m, ev).Some? && Step(input, m, ev).value.code < Step(input, m, ev).value.range
    ensures Inside(input, Narrow(e, ev)) ==> InStep(input, Step(input, m, ev).value, Narrow(e, ev))
  {
    NormalizeExact(input, m, e);
    ZeroPartBounds(Widen(e).range, e.probs, ev.ctx);
    hide GoodProbs, Widen, Normalize, ZeroPart, Spelled, AdaptAll;
    WidenProbs(e);
    NormalizeProbs(input, m);
  }

  lemma WidenProbs(e: Interval)
    ensures Widen(e).probs == e.probs
  {}

  lemma NormalizeProbs(input: seq<byte>, m: Machine)
    ensures Normalize(input, m).Some? ==> Normalize(input, m).value.probs == m.probs
  {}

  /** The range decoder inverts coding.  For every sequence of contexts and bits, and every
      stream: the decoder returns these bits, with `Code < Range` throughout, exactly when
      the number the stream spells lies in the interval the sequence owns. */
  lemma {:induction false} RunExact(input: seq<byte>, m: Machine, e: Interval, trace: seq<Ev>)
    requires GoodInterval(e) && ValidTrace(e.probs, trace) && InStep(input, m, e)
    ensures Inside(input, NarrowAll(e, trace)) <==> StaysBelow(input, m, trace)
    decreases |trace|
  {
    hide Inside, Step, Narrow, InStep;
    InStepInside(input, m, e);
    if trace != [] {
      var ev := trace[0];
      NarrowGood(e, ev);
      StepExact(input, m, e, ev);
      if Inside(input, Narrow(e, ev)) {
        RunExact(input, Step(input, m, ev).value, Narrow(e, ev), trace[1..]);
      } else if Inside(input, NarrowAll(e, trace)) {
        NarrowAllNested(input, Narrow(e, ev), trace[1..]);
      }
    }
  }

  lemma InStepInside(input: seq<byte>, m: Machine, e: Interval)
    requires InStep(input, m, e)
    ensures Inside(input, e) && m.code < m.range
  {}

  // ----- different bits own different numbers

  /** Two traces ask for the same contexts until they first differ, in a bit. */
  predicate Diverge(a: seq<Ev>, b: seq<Ev>)
    decreases |a|
  {
    a != [] && b != [] &&
    if a[0] == b[0] then Diverge(a[1..], b[1..])
    else a[0].ctx == b[0].ctx && a[0].bit != b[0].bit
  }

  lemma NarrowDisjoint(input: seq<byte>, e: Interval, v: Ev, w: Ev)
    requires GoodInterval(e) && ValidEvent(e.probs, v) && ValidEvent(e.probs, w)
    requires v.ctx == w.ctx && v.bit != w.bit
    ensures !(Inside(input, Narrow(e, v)) && Inside(input, Narrow(e, w)))
  {
    hide GoodProbs, ZeroPart, Spelled, AdaptAll;
  }

  /** Traces that diverge own disjoint intervals, so no stream decodes to both. */
  lemma {:induction false} DivergeDisjoint(input: seq<byte>, e: Interval, a: seq<Ev>, b: seq<Ev>)
    requires GoodInterval(e) && ValidTrace(e.probs, a) && ValidTrace(e.probs, b) && Diverge(a, b)
    ensures !(Inside(input, NarrowAll(e, a)) && Inside(input, NarrowAll(e, b)))
    decreases |a|
  {
    hide Inside, Narrow;
    NarrowGood(e, a[0]);
    NarrowGood(e, b[0]);
    if a[0] == b[0] {
      DivergeDisjoint(input, Narrow(e, a[0]), a[1..], b[1..]);
    } else {
      NarrowDisjoint(input, e, a[0], b[0]);
      if Inside(input, NarrowAll(e, a)) { NarrowAllNested(input, Narrow(e, a[0]), a[1..]); }
      if Inside(input, NarrowAll(e, b)) { NarrowAllNested(input, Narrow(e, b[0]), b[1..]); }
    }
  }

  /** The same for the decoder itself, on any stream at all. */
  lemma {:induction false} DivergeRun(input: seq<byte>, m: Machine, a: seq<Ev>, b: seq<Ev>)
    requires Diverge(a, b)
    ensures !(Run(input, m, a).Some? && Run(input, m, b).Some?)
    decreases |a|
  {
    if a[0] == b[0] {
      match Step(input, m, a[0])
      case None =>
      case Some(n) => DivergeRun(input, n, a[1..], b[1..]);
    }
  }

  lemma {:induction false} DivergeExtend(a: seq<Ev>, b: seq<Ev>, x: seq<Ev>, y: seq<Ev>)
    requires Diverge(a, b)
    ensures Diverge(a + x, b + y)
    decreases |a|
  {
    assert (a + x)[0] == a[0] && (b + y)[0] == b[0];
    assert (a + x)[1..] == a[1..] + x && (b + y)[1..] == b[1..] + y;
    if a[0] == b[0] { DivergeExtend(a[1..], b[1..], x, y); }
  }

  lemma {:induction false} DivergeAfter(p: seq<Ev>, a: seq<Ev>, b: seq<Ev>)
    requires Diverge(a, b)
    ensures Diverge(p + a, p + b)
    decreases |p|
  {
    if p == [] {
      assert p + a == a && p + b == b;
    } else {
      assert (p + a)[0] == p[0] == (p + b)[0];
      assert (p + a)[1..] == p[1..] + a && (p + b)[1..] == p[1..] + b;
      DivergeAfter(p[1..], a, b);
    }
  }
}
