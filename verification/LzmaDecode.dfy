/** `LzmaDecode`: the decoder as a program, proved against the packet format.

    Every read and write below is proved to be in range: probability indices stay inside
    the table, and the source of every copy lies in output already written. */
module LzmaDecode {
  import opened Wrappers
  import opened PowersOfTwo
  import opened LzmaRange
  import opened LzmaPackets
  import opened LzmaUnique
  import opened LzmaStream

  /** `LzmaDecodeProperties`: the first byte holds three digits, in bases 5, 5 and 9. */
  method DecodeProperties(data: seq<byte>) returns (r: Option<Props>)
    ensures r.None? <==> |data| < 5 || data[0] >= 225
    ensures r.Some? ==> r.value.Valid() && data[0] == (r.value.pb * 5 + r.value.lp) * 9 + r.value.lc
  {
    if |data| < 5 || data[0] >= 9 * 5 * 5 {
      return None;
    }
    var prop0: nat, lp, pb := data[0], 0, 0;
    while prop0 >= 45
      invariant data[0] == pb * 45 + prop0
    {
      pb, prop0 := pb + 1, prop0 - 45;
    }
    while prop0 >= 9
      invariant data[0] == pb * 45 + lp * 9 + prop0 && lp * 9 + prop0 < 45
    {
      lp, prop0 := lp + 1, prop0 - 9;
    }
    r := Some(Props(prop0, lp, pb));
  }

  class Decoder {
    const input: seq<byte>
    const props: Props
    const probs: array<nat>
    const out: array<byte>
    const outSize: nat
    var range: nat
    var code: nat
    var buffer: nat
    var nowPos: nat
    var previousByte: byte
    var state: nat
    var rep0: nat
    var rep1: nat
    var rep2: nat
    var rep3: nat
    ghost var trace: seq<Ev>

    constructor (input: seq<byte>, props: Props, probs: array<nat>, out: array<byte>, outSize: nat)
      ensures this.input == input && this.props == props && this.probs == probs && this.out == out
              && this.outSize == outSize
      ensures nowPos == 0 && previousByte == 0 && state == 0 && rep0 == rep1 == rep2 == rep3 == 1
      ensures trace == [] && buffer == 0
    {
      this.input, this.props, this.probs, this.out, this.outSize := input, props, probs, out, outSize;
      nowPos, previousByte, state := 0, 0, 0;
      rep0, rep1, rep2, rep3 := 1, 1, 1, 1;
      range, code, buffer, trace := WORD - 1, 0, 0, [];
    }

    ghost function Now(): Machine
      reads this`range, this`code, this`buffer, probs
    {
      Machine(range, code, buffer, probs[..])
    }

    /** The range decoder: within its bounds, and where the trace has led it. */
    ghost predicate Coding()
      reads this`range, this`code, this`buffer, this`trace, probs
    {
      && props.Valid() && probs.Length == props.NumProbs() && 5 <= |input| && buffer <= |input|
      && Good(Now())
      && Run(input, StartMachine(input, props), trace) == Some(Now())
    }

    /** No more bits can be had: the next one needs a byte past the end of the input. */
    ghost predicate Starved()
      reads this`range, this`code, this`buffer, probs
    {
      Normalize(input, Now()).None?
    }

    /** The trace has come to `full`, or the input has ended on the way there. */
    ghost predicate Reached(ok: bool, full: seq<Ev>)
      reads this`range, this`code, this`buffer, this`trace, probs
    {
      if ok then trace == full else trace < full && Starved()
    }

    ghost function Current(): Lz
      requires nowPos <= out.Length
      reads this`state, this`nowPos, this`rep0, this`rep1, this`rep2, this`rep3, out
    {
      Lz(state, rep0, rep1, rep2, rep3, out[..nowPos])
    }

    /** The four distances are positive, and reach into written output once there is any. */
    ghost predicate Distances()
      reads this`state, this`nowPos, this`rep0, this`rep1, this`rep2, this`rep3
    {
      && 1 <= rep0 && 1 <= rep1 && 1 <= rep2 && 1 <= rep3
      && (nowPos == 0 ==> rep0 == rep1 == rep2 == rep3 == 1 && state < 7)
      && (nowPos > 0 ==> rep0 <= nowPos && rep1 <= nowPos && rep2 <= nowPos && rep3 <= nowPos)
    }

    ghost predicate Valid()
      reads this, probs, out
    {
      Coding() && Rest()
    }

    /** The output side: the last byte written is at hand, and the distances reach back
        into what has been written. */
    ghost predicate Rest()
      reads this`state, this`nowPos, this`previousByte, this`rep0, this`rep1, this`rep2, this`rep3, out
    {
      && state < 12 && nowPos <= outSize <= out.Length && outSize < WORD && Distances()
      && previousByte == PreviousByte(out[..nowPos])
    }

    // ----- the start

    method ResetProbs()
      modifies probs
      ensures probs[..] == seq(probs.Length, i => 1024)
    {
      for i := 0 to probs.Length
        invariant forall k :: 0 <= k < i ==> probs[k] == 1024
      {
        probs[i] := BIT_MODEL_TOTAL / 2;
      }
    }

    /** `RC_INIT`: the first five bytes, the first of which is shifted out again. */
    method InitRange() returns (ok: bool)
      modifies this`range, this`code, this`buffer
      ensures ok <==> 5 <= |input|
      ensures ok ==> range == WORD - 1 && code == Spelled(input, 0) && buffer == 5
    {
      buffer, code, range := 0, 0, WORD - 1;
      for i := 0 to 5
        invariant buffer == i <= |input| && code == Number(input, i) % WORD && range == WORD - 1
      {
        if buffer == |input| {
          return false;
        }
        ShiftIn(Number(input, i), input[i]);
        code := (code * 256 + input[buffer]) % WORD;
        buffer := buffer + 1;
      }
      FirstByteLost(input);
      ok := true;
    }

    /** The number spelled by the first `k` bytes. */
    static function Number(input: seq<byte>, k: nat): nat
      requires k <= |input|
    {
      if k == 0 then 0 else Number(input, k - 1) * 256 + input[k - 1]
    }

    static lemma ShiftIn(v: nat, b: byte)
      ensures (v % WORD * 256 + b) % WORD == (v * 256 + b) % WORD
    {
      DivShift(v / WORD * 256, v % WORD * 256 + b, WORD);
    }

    static lemma FirstByteLost(input: seq<byte>)
      requires 5 <= |input|
      ensures Number(input, 5) % WORD == Spelled(input, 0)
    {
      var a: nat, b: nat, c: nat := input[0], input[1], input[2];
      assert Number(input, 1) == a;
      assert Number(input, 3) == (a * 256 + b) * 256 + c;
      assert Number(input, 5) == a * WORD + Spelled(input, 0);
      DivShift(a, Spelled(input, 0), WORD);
    }

    /** The state before the main loop. */
    method Start() returns (ok: bool)
      requires props.Valid() && probs.Length == props.NumProbs() && outSize <= out.Length && outSize < WORD
      requires nowPos == 0 && previousByte == 0 && state == 0 && rep0 == rep1 == rep2 == rep3 == 1 && trace == []
      modifies this`range, this`code, this`buffer, probs
      ensures ok <==> 5 <= |input|
      ensures ok ==> Valid() && Current() == START
    {
      ResetProbs();
      ok := InitRange();
      if ok {
        assert out[..0] == [];
        assert Now() == StartMachine(input, props);
      }
    }

    // ----- bits

    /** `RC_NORMALIZE`; fails at the end of the input. */
    method NormalizeRange() returns (ok: bool)
      requires Good(Now()) && buffer <= |input|
      modifies this`range, this`code, this`buffer
      ensures ok <==> Normalize(input, old(Now())).Some?
      ensures ok ==> Now() == Normalize(input, old(Now())).value && buffer <= |input|
      ensures ok ==> TOP_VALUE <= range < WORD && code < WORD
      ensures !ok ==> unchanged(this)
    {
      if range < TOP_VALUE {
        if buffer == |input| {
          return false;
        }
        range := range * 256;
        code := (code * 256 + input[buffer]) % WORD;
        buffer := buffer + 1;
      }
      ok := true;
    }

    /** `IfBit0` with `UpdateBit0` or `UpdateBit1`; fails at the end of the input. */
    method DecodeBit(i: nat) returns (ok: bool, bit: nat)
      requires Coding() && i < probs.Length
      modifies this`range, this`code, this`buffer, this`trace, probs
      ensures Coding() && bit < 2
      ensures ok ==> trace == old(trace) + [Ev(Prob(i), bit)]
      ensures !ok ==> trace == old(trace) && Starved()
    {
      hide Run, StartMachine, Pow2, Normalize, Step, AdaptAll;
      ghost var before, m, s := trace, Now(), StartMachine(input, props);
      ok := NormalizeRange();
      if !ok {
        return false, 0;
      }
      ghost var n := Now();
      var bound := range / BIT_MODEL_TOTAL * probs[i];
      ZeroPartBounds(range, probs[..], Prob(i));
      bit := 0;
      if code < bound {
        range := bound;
        probs[i] := probs[i] + (BIT_MODEL_TOTAL - probs[i]) / 32;
      } else {
        range := range - bound;
        code := code - bound;
        probs[i] := probs[i] - probs[i] / 32;
        bit := 1;
      }
      trace := trace + [Ev(Prob(i), bit)];
      StepFrom(input, m, n, Ev(Prob(i), bit));
      AdaptIs(n.probs, i, bit);
      OneStep(input, s, m, before, Ev(Prob(i), bit));
      StepGood(input, m, Ev(Prob(i), bit));
    }

    /** One of the direct bits of a distance. */
    method DecodeDirect() returns (ok: bool, bit: nat)
      requires Coding()
      modifies this`range, this`code, this`buffer, this`trace
      ensures Coding() && bit < 2
      ensures ok ==> trace == old(trace) + [Ev(Direct, bit)]
      ensures !ok ==> trace == old(trace) && Starved()
    {
      hide Run, StartMachine, Pow2, Normalize, Step;
      ghost var before, m, s := trace, Now(), StartMachine(input, props);
      ok := NormalizeRange();
      if !ok {
        return false, 0;
      }
      ghost var n := Now();
      bit := 0;
      range := range / 2;
      if code >= range {
        code := code - range;
        bit := 1;
      }
      trace := trace + [Ev(Direct, bit)];
      StepFrom(input, m, n, Ev(Direct, bit));
      OneStep(input, s, m, before, Ev(Direct, bit));
      StepGood(input, m, Ev(Direct, bit));
    }

    /** A step from the normalized machine. */
    static lemma StepFrom(input: seq<byte>, m: Machine, n: Machine, ev: Ev)
      requires Normalize(input, m) == Some(n) && ev.bit < 2
      ensures n.probs == m.probs
      ensures var zero := ZeroPart(n.range, n.probs, ev.ctx);
              ev.bit == (if n.code < zero then 0 else 1) && RangeAfter(n.range, n.probs, ev) >= 0
              && (ev.ctx.Prob? ==> ev.ctx.index < |n.probs|) ==>
                Step(input, m, ev) == Some(Machine(RangeAfter(n.range, n.probs, ev),
                                                   if ev.bit == 0 then n.code else n.code - zero,
                                                   n.next, AdaptAll(n.probs, ev)))
    {}

    static lemma AdaptIs(probs: seq<nat>, i: nat, bit: nat)
      requires i < |probs| && probs[i] <= BIT_MODEL_TOTAL
      ensures AdaptAll(probs, Ev(Prob(i), bit))
           == probs[i := if bit == 0 then probs[i] + (BIT_MODEL_TOTAL - probs[i]) / 32 else probs[i] - probs[i] / 32]
    {}

    static lemma OneStep(input: seq<byte>, s: Machine, m: Machine, before: seq<Ev>, ev: Ev)
      requires Run(input, s, before) == Some(m)
      ensures Run(input, s, before + [ev]) == Step(input, m, ev)
    {
      hide Step;
      RunAppend(input, s, before, [ev]);
      match Step(input, m, ev)
      case None =>
      case Some(n) => assert Run(input, n, []) == Some(n);
    }

    // ----- trees

    /** `RangeDecoderBitTreeDecode` */
    method DecodeTree(base: nat, n: nat) returns (ok: bool, s: nat, ghost whole: nat)
      requires Coding() && base + Pow2(n) <= probs.Length
      modifies this`range, this`code, this`buffer, this`trace, probs
      ensures Coding() && whole < Pow2(n) && (ok ==> s == whole)
      ensures Reached(ok, old(trace) + TreePath(base, n, whole))
    {
      hide Coding, Starved;
      var res := 1;
      assert TreePath(base, 0, 0) == [];
      for k := 0 to n
        invariant Coding() && Pow2(k) <= res < 2 * Pow2(k)
        invariant trace == old(trace) + TreePath(base, k, res - Pow2(k))
      {
        Pow2Monotone(k + 1, n);
        var bit;
        ok, bit := DecodeBit(base + res);
        if !ok {
          TreeCompletes(base, k, n, res - Pow2(k));
          return false, 0, Shl(res - Pow2(k), n - k);
        }
        assert TreePath(base, k + 1, 2 * res + bit - Pow2(k + 1))
               == TreePath(base, k, res - Pow2(k)) + [Ev(Prob(base + res), bit)];
        res := 2 * res + bit;
      }
      ok, s, whole := true, res - Pow2(n), res - Pow2(n);
    }

    /** The bits of a distance that are sent lowest first. */
    method DecodeReverse(base: nat, n: nat) returns (ok: bool, s: nat)
      requires Coding() && base + Pow2(n) <= probs.Length
      modifies this`range, this`code, this`buffer, this`trace, probs
      ensures Coding() && s < Pow2(n)
      ensures Reached(ok, old(trace) + RevPath(base, n, s))
    {
      hide Coding, Starved, RevPath, RevNode, Pow2;
      var i, mi := 1, 1;
      s := 0;
      RevStart(base);
      for k := 0 to n
        invariant Coding() && i == Pow2(k) && mi == RevNode(k, s) && s < Pow2(k)
        invariant trace == old(trace) + RevPath(base, k, s)
      {
        Pow2Monotone(k + 1, n);
        RevStep(base, k, s, 0);
        RevStep(base, k, s, 1);
        var bit;
        ok, bit := DecodeBit(base + mi);
        if !ok {
          RevCompletes(base, k, n, s);
          return;
        }
        mi := 2 * mi + bit;
        if bit == 1 {
          s := s + i;
        }
        i := i * 2;
      }
      ok := true;
    }

    static lemma RevStart(base: nat)
      ensures RevPath(base, 0, 0) == [] && RevNode(0, 0) == 1 && Pow2(0) == 1
    {}

    static lemma RevStep(base: nat, k: nat, s: nat, bit: nat)
      requires s < Pow2(k) && bit < 2
      ensures Pow2(k + 1) == 2 * Pow2(k) && s + bit * Pow2(k) < Pow2(k + 1) && RevNode(k, s) < Pow2(k + 1)
      ensures RevNode(k + 1, s + bit * Pow2(k)) == 2 * RevNode(k, s) + bit
      ensures RevPath(base, k + 1, s + bit * Pow2(k)) == RevPath(base, k, s) + [Ev(Prob(base + RevNode(k, s)), bit)]
    {
      hide Low, Shr;
      RevNodeBound(k, s);
      AddHighBit(s, bit, k);
    }

    static lemma AddHighBit(s: nat, bit: nat, k: nat)
      requires s < Pow2(k) && bit < 2
      ensures Low(s + bit * Pow2(k), k) == s && Shr(s + bit * Pow2(k), k) == bit
    {
      DivUnique(s + bit * Pow2(k), bit, s, Pow2(k));
    }

    method DecodeDirectBits(n: nat) returns (ok: bool, s: nat, ghost whole: nat)
      requires Coding()
      modifies this`range, this`code, this`buffer, this`trace
      ensures Coding() && whole < Pow2(n) && (ok ==> s == whole)
      ensures Reached(ok, old(trace) + DirectPath(n, whole))
    {
      hide Coding, Starved;
      s := 0;
      assert DirectPath(0, 0) == [];
      for k := 0 to n
        invariant Coding() && s < Pow2(k) && trace == old(trace) + DirectPath(k, s)
      {
        var bit;
        ok, bit := DecodeDirect();
        if !ok {
          DirectCompletes(k, n, s);
          return false, 0, Shl(s, n - k);
        }
        assert DirectPath(k + 1, 2 * s + bit) == DirectPath(k, s) + [Ev(Direct, bit)];
        s := 2 * s + bit;
      }
      ok, whole := true, s;
    }

    /** The eight bits of a literal: first against the byte at the match distance, for as
        long as they agree with it, then in the plain tree. */
    method DecodeLiteralByte(base: nat, matched: Option<byte>) returns (ok: bool, b: byte, ghost whole: byte)
      requires Coding() && base + LIT_SIZE <= probs.Length
      modifies this`range, this`code, this`buffer, this`trace, probs
      ensures Coding() && (ok ==> b == whole)
      ensures Reached(ok, old(trace) + LitPath(base, 8, whole, matched))
    {
      hide Coding, Starved, Shr, Pow2, LitPath, LitNode;
      var symbol: nat := 1;
      ghost var k: nat := 0;
      LitStart(base, matched);
      if matched.Some? {
        ok, symbol, k := DecodeMatchedBits(base, matched.value);
        if !ok {
          whole := LitCompletes(base, k, symbol - Pow2(k), matched);
          return false, 0, whole;
        }
      }
      ghost var before := old(trace);
      while symbol < 0x100
        invariant Coding() && LitAt(symbol, k) && trace == before + LitPath(base, k, symbol - Pow2(k), matched)
        invariant k < 8 && matched.Some? ==> symbol - Pow2(k) != Shr(matched.value, 8 - k)
        decreases 8 - k
      {
        KBelow8(k, symbol);
        var bit;
        ok, bit := DecodeBit(base + symbol);
        if !ok {
          whole := LitCompletes(base, k, symbol - Pow2(k), matched);
          return false, 0, whole;
        }
        LitStep(base, k, symbol - Pow2(k), matched, bit);
        if matched.Some? {
          TopBit(matched.value, k);
        }
        symbol := 2 * symbol + bit;
        k := k + 1;
      }
      KIs8(k, symbol);
      ok, b, whole := true, symbol - 0x100, symbol - 0x100;
    }

    /** The bits of a literal up to the first that differs from the matched byte. */
    method DecodeMatchedBits(base: nat, matchByte0: byte) returns (ok: bool, symbol: nat, ghost k: nat)
      requires Coding() && base + LIT_SIZE <= probs.Length
      modifies this`range, this`code, this`buffer, this`trace, probs
      ensures Coding() && LitAt(symbol, k) && trace == old(trace) + LitPath(base, k, symbol - Pow2(k), Some(matchByte0))
      ensures ok && k < 8 ==> symbol - Pow2(k) != Shr(matchByte0, 8 - k)
      ensures !ok ==> k < 8 && Starved()
    {
      hide Coding, Starved, Shr, Pow2, LitPath, LitNode;
      symbol, k := 1, 0;
      var matchByte: nat, same := matchByte0, true;
      LitStart(base, Some(matchByte0));
      ShrStart(matchByte0);
      while same && symbol < 0x100
        invariant Coding() && LitAt(symbol, k)
        invariant trace == old(trace) + LitPath(base, k, symbol - Pow2(k), Some(matchByte0))
        invariant same <==> symbol - Pow2(k) == Shr(matchByte0, 8 - k)
        invariant matchByte == matchByte0 * Pow2(k)
        decreases 8 - k
      {
        KBelow8(k, symbol);
        matchByte := matchByte * 2;
        var top := matchByte / 0x100 % 2;
        TopBit(matchByte0, k);
        var bit;
        ok, bit := DecodeBit(base + 0x100 + 0x100 * top + symbol);
        if !ok {
          return;
        }
        LitStep(base, k, symbol - Pow2(k), Some(matchByte0), bit);
        symbol := 2 * symbol + bit;
        k := k + 1;
        same := bit == top;
      }
      if symbol >= 0x100 { KIs8(k, symbol); }
      ok := true;
    }

    /** `symbol` is a leading one followed by `k` bits. */
    static predicate LitAt(symbol: nat, k: nat) {
      k <= 8 && Pow2(k) <= symbol < 2 * Pow2(k)
    }

    static lemma LitStart(base: nat, matched: Option<byte>)
      ensures LitPath(base, 0, 0, matched) == [] && Pow2(0) == 1
    {}

    static lemma LitStep(base: nat, k: nat, s: nat, matched: Option<byte>, bit: nat)
      requires k < 8 && bit < 2
      ensures Pow2(k + 1) == 2 * Pow2(k)
      ensures LitPath(base, k + 1, 2 * s + bit, matched)
              == LitPath(base, k, s, matched) + [Ev(Prob(base + LitNode(k, s, matched)), bit)]
      ensures LitNode(k, s, matched) == Pow2(k) + s + (if matched.Some? && s == Shr(matched.value, 8 - k)
                                                      then 0x100 + 0x100 * (Shr(matched.value, 7 - k) % 2) else 0)
    {
      hide Shr;
    }

    static lemma KBelow8(k: nat, symbol: nat)
      requires k <= 8 && Pow2(k) <= symbol < 0x100
      ensures k < 8 && Pow2(k + 1) <= 0x100 && Pow2(k + 1) == 2 * Pow2(k)
    {
      TreeSizes();
      if k < 8 { Pow2Monotone(k + 1, 8); }
    }

    static lemma KIs8(k: nat, symbol: nat)
      requires k <= 8 && 0x100 <= symbol < 2 * Pow2(k)
      ensures k == 8 && Pow2(k) == 0x100
    {
      TreeSizes();
      if k < 8 { Pow2Monotone(k + 1, 8); }
    }

    static lemma ShrStart(b: byte)
      ensures Shr(b, 8) == 0
    {
      TreeSizes();
    }

    /** The bit of `b` that decides after `k` bits. */
    static lemma TopBit(b: byte, k: nat)
      requires k < 8
      ensures Pow2(k + 1) == 2 * Pow2(k)
      ensures b * Pow2(k) * 2 / 0x100 % 2 == Shr(b, 7 - k) % 2 && b * Pow2(k) * 2 == b * Pow2(k + 1)
      ensures Shr(b, 7 - k) == 2 * Shr(b, 8 - k) + Shr(b, 7 - k) % 2
    {
      Pow2Add(7 - k, k + 1);
      assert Pow2(8) == 256;
      assert Pow2(k + 1) == 2 * Pow2(k) && Pow2(8 - k) == 2 * Pow2(7 - k);
      hide Pow2;
      DivTwice(b, Pow2(7 - k));
      TopBitM(b, Pow2(7 - k), Pow2(k + 1));
      Doubled(b, Pow2(k));
    }

    static lemma Doubled(b: nat, m: nat)
      ensures b * m * 2 == b * (2 * m)
    {}

    static lemma TopBitM(b: nat, m: nat, l: nat)
      requires m > 0 && l > 0 && m * l == 0x100
      ensures b * l / 0x100 == b / m
    {
      var q, r := b / m, b % m;
      assert b == q * m + r;
      assert (q * m + r) * l == q * (m * l) + r * l;
      assert (m - r - 1) * l >= 0;
      DivUnique(b * l, q, r * l, 0x100);
    }

    // ----- lengths and distances

    /** The length, less two. */
    method DecodeLength(base: nat, posState: nat) returns (ok: bool, len: nat, ghost whole: nat)
      requires Coding() && posState < 16 && base + NUM_LEN_PROBS <= probs.Length
      modifies this`range, this`code, this`buffer, this`trace, probs
      ensures Coding() && whole < 272 && (ok ==> len == whole)
      ensures Reached(ok, old(trace) + LenPath(base, posState, whole))
    {
      hide Coding, Starved, TreePath, LenPath, Pow2;
      TreeSizes();
      len, whole := 0, 0;
      ghost var start := trace;
      var bit;
      ok, bit := DecodeBit(base);
      if !ok {
        ShortLength(start, base, posState, 0);
        return;
      }
      if bit == 0 {
        ok, len, whole := DecodeTree(base + LEN_LOW + posState * 8, 3);
        ShortLength(start, base, posState, whole);
        return;
      }
      ok, bit := DecodeBit(base + 1);
      if !ok {
        whole := 8;
        MiddleLength(start, base, posState, 0);
        return;
      }
      if bit == 0 {
        ok, len, whole := DecodeTree(base + LEN_MID + posState * 8, 3);
        MiddleLength(start, base, posState, whole);
        len, whole := len + 8, whole + 8;
      } else {
        ok, len, whole := DecodeTree(base + LEN_HIGH, 8);
        LongLength(start, base, posState, whole);
        len, whole := len + 16, whole + 16;
      }
    }

    /** The paths of the three ranges of lengths, after the trace `t`. */
    static lemma ShortLength(t: seq<Ev>, base: nat, posState: nat, part: nat)
      requires part < 8
      ensures var path := TreePath(base + LEN_LOW + posState * 8, 3, part);
              t + LenPath(base, posState, part) == (t + [Ev(Prob(base), 0)]) + path
    {
      hide TreePath;
    }

    static lemma MiddleLength(t: seq<Ev>, base: nat, posState: nat, part: nat)
      requires part < 8
      ensures var path := TreePath(base + LEN_MID + posState * 8, 3, part);
              t + LenPath(base, posState, part + 8) == ((t + [Ev(Prob(base), 1)]) + [Ev(Prob(base + 1), 0)]) + path
    {
      hide TreePath;
    }

    static lemma LongLength(t: seq<Ev>, base: nat, posState: nat, part: nat)
      ensures var path := TreePath(base + LEN_HIGH, 8, part);
              t + LenPath(base, posState, part + 16) == ((t + [Ev(Prob(base), 1)]) + [Ev(Prob(base + 1), 1)]) + path
    {
      hide TreePath;
    }

    /** The distance, less one, of a match of length `len + 2`. */
    method DecodeDistance(len: nat) returns (ok: bool, dist: nat, ghost slot: nat, ghost foot: nat)
      requires Coding()
      modifies this`range, this`code, this`buffer, this`trace, probs
      ensures Coding() && slot < 64 && foot < Pow2(FooterBits(slot)) && (ok ==> dist + 1 == Distance(slot, foot))
      ensures Reached(ok, old(trace) + DistPath(len, slot, foot))
    {
      hide Coding, Starved, TreePath, RevPath, DirectPath, Pow2, Shl;
      TableSize();
      TreeSizes();
      var posSlot;
      ok, posSlot, slot := DecodeTree(POS_SLOT + (if len < 4 then len else 3) * 64, 6);
      foot, dist := 0, posSlot;
      if !ok || posSlot < 4 {
        return;
      }
      var f;
      ok, f, foot := DecodeFooter(posSlot);
      dist := Shl(2 + posSlot % 2, posSlot / 2 - 1) + f;
    }

    /** The bits of a distance after its slot. */
    method DecodeFooter(posSlot: nat) returns (ok: bool, f: nat, ghost foot: nat)
      requires Coding() && 4 <= posSlot < 64
      modifies this`range, this`code, this`buffer, this`trace, probs
      ensures Coding() && foot < Pow2(FooterBits(posSlot)) && (ok ==> f == foot)
      ensures Reached(ok, old(trace) + FootPath(posSlot, foot))
    {
      hide Coding, Starved, RevPath, DirectPath, Pow2, Shl;
      TableSize();
      TreeSizes();
      var numDirectBits := posSlot / 2 - 1;
      if posSlot < 14 {
        SlotBaseAbove(posSlot);
        ok, f := DecodeReverse(SPEC_POS - 1 + (Shl(2 + posSlot % 2, numDirectBits) - posSlot), numDirectBits);
        foot := f;
      } else {
        Pow2Add(numDirectBits - 4, 4);
        ok, f, foot := DecodeDirectBits(numDirectBits - 4);
        foot := foot * 16;
        if !ok {
          return;
        }
        var low;
        ok, low := DecodeReverse(ALIGN, 4);
        f := f * 16 + low;
        foot := f;
      }
    }

    lemma TableSize()
      requires Coding()
      ensures probs.Length >= LITERAL + LIT_SIZE
    {
      hide Run, StartMachine;
    }

    lemma PropsValid()
      requires Coding()
      ensures props.Valid()
    {
      hide Run, StartMachine;
    }

    // ----- packets

    lemma LiteralFits()
      requires Coding()
      ensures props.lc <= 8
      ensures LITERAL + LIT_SIZE * (Shl(Low(nowPos, props.lp), props.lc) + Shr(previousByte, 8 - props.lc))
              + LIT_SIZE <= probs.Length
    {
      hide Run, StartMachine, Shl, Shr, Low, Pow2;
      LiteralInTable(props, nowPos, previousByte);
    }

    /** The literal after its zero bit. */
    method DecodeLiteral() returns (ok: bool, ghost p: Packet)
      requires Valid() && nowPos < outSize
      modifies this, probs, out
      ensures Coding() && p.Literal? && props.lc <= 8
      ensures Reached(ok, old(trace) + LitPath(LiteralBase(props, old(Current())), 8, p.b, Matched(old(Current()))))
      ensures ok ==> Valid() && nowPos == old(nowPos) + 1 && Apply(old(Current()), p, outSize) == Some(Current())
    {
      hide Coding, Starved, LitPath, Shr, Shl, Low;
      LiteralFits();
      var base := LITERAL + LIT_SIZE * (Shl(Low(nowPos, props.lp), props.lc) + Shr(previousByte, 8 - props.lc));
      var matched := if state >= 7 then Some(out[nowPos - rep0]) else None;
      var b;
      ghost var whole;
      ok, b, whole := DecodeLiteralByte(base, matched);
      p := Literal(whole);
      if !ok {
        return;
      }
      previousByte := b;
      out[nowPos] := b;
      nowPos := nowPos + 1;
      assert out[..nowPos] == old(out[..nowPos]) + [b];
      state := if state < 4 then 0 else if state < 10 then state - 3 else state - 6;
    }

    /** One byte copied from the last distance; its source is in written output. */
    method CopyByte()
      requires Rest() && rep0 <= nowPos < outSize
      modifies this`previousByte, this`nowPos, out
      ensures Rest() && nowPos == old(nowPos) + 1 && rep0 <= nowPos
      ensures out[..nowPos] == old(out[..nowPos]) + [old(out[nowPos - rep0])]
    {
      previousByte := out[nowPos - rep0];
      out[nowPos] := previousByte;
      nowPos := nowPos + 1;
      assert out[..nowPos] == old(out[..nowPos]) + [previousByte];
    }

    /** The copy loop of a match: at least one byte, and none past `outSize`. */
    method CopyMatch(len: nat)
      requires Rest() && len > 0 && rep0 <= nowPos < outSize
      modifies this`previousByte, this`nowPos, out
      ensures Rest() && nowPos > old(nowPos)
      ensures out[..nowPos] == CopyBytes(old(out[..nowPos]), rep0, Min(len, outSize - old(nowPos)))
    {
      hide PreviousByte, Distances;
      OneOrMore();
      ghost var goal := CopyBytes(out[..nowPos], rep0, Min(len, outSize - nowPos));
      var left: nat := len;
      while true
        invariant Rest() && 1 <= rep0 <= nowPos && nowPos == old(nowPos) + (len - left)
        invariant 0 < left <= len && nowPos < outSize
        invariant CopyBytes(out[..nowPos], rep0, Min(left, outSize - nowPos)) == goal
        decreases left
      {
        ghost var before := out[..nowPos];
        CopyByte();
        left := left - 1;
        assert out[..nowPos] == before + [before[|before| - rep0]];
        if left == 0 || nowPos >= outSize {
          break;
        }
      }
    }

    lemma OneOrMore()
      requires Rest()
      ensures 1 <= rep0
    {}

    /** The decoder has read the packet `p`, or it has failed: at the end of the input, or
        because the distance of `p` reaches before the output. */
    ghost predicate Answered(ok: bool, lz: Lz, p: Packet, full: seq<Ev>)
      reads this`range, this`code, this`buffer, this`trace, probs
    {
      Reached(ok, full) || (!ok && trace == full && !IsEndMarker(p) && Apply(lz, p, outSize).None?)
    }

    /** Length and distance of a match, as they are coded. */
    method ReadMatch(posState: nat) returns (ok: bool, len: nat, dist: nat, ghost p: Packet)
      requires Coding() && posState < 16
      modifies this`range, this`code, this`buffer, this`trace, probs
      ensures Coding() && p.Match? && Encodable(p)
      ensures ok ==> p.len == len && dist + 1 == Distance(p.slot, p.foot) <= WORD
      ensures Reached(ok, old(trace) + (LenPath(LEN_CODER, posState, p.len) + DistPath(p.len, p.slot, p.foot)))
    {
      hide Coding, Starved, LenPath, DistPath, Distance, Pow2;
      TableSize();
      ghost var whole;
      ok, len, whole := DecodeLength(LEN_CODER, posState);
      dist, p := 0, Match(whole, 0, 0);
      if !ok {
        return;
      }
      ghost var slot, foot;
      ok, dist, slot, foot := DecodeDistance(len);
      p := Match(len, slot, foot);
      DistanceBound(slot, foot);
    }

    /** The match after its kind bits: length, distance, copy. */
    method DecodeMatch(posState: nat) returns (ok: bool, ended: bool, ghost p: Packet)
      requires Valid() && nowPos < outSize && posState < 16
      modifies this, probs, out
      ensures Coding() && p.Match? && Encodable(p)
      ensures Answered(ok, old(Current()), p,
                       old(trace) + (LenPath(LEN_CODER, posState, p.len) + DistPath(p.len, p.slot, p.foot)))
      ensures ok && !ended ==> Valid() && nowPos > old(nowPos) && Apply(old(Current()), p, outSize) == Some(Current())
      ensures ok && ended ==> IsEndMarker(p) && nowPos == old(nowPos) && out[..] == old(out[..])
    {
      hide Coding, Starved, LenPath, DistPath, CopyBytes, Distance, PreviousByte, Apply, IsEndMarker;
      ended := false;
      rep3 := rep2;
      rep2 := rep1;
      rep1 := rep0;
      state := if state < 7 then 0 else 3;
      var len, dist;
      ok, len, dist, p := ReadMatch(posState);
      if !ok {
        return;
      }
      state := state + 7;
      rep0 := (dist + 1) % WORD;
      MatchDistance(old(Current()), p, rep0, outSize);
      if rep0 == 0 {
        ended := true;
        return;
      }
      if rep0 > nowPos {
        ok := false;
        return;
      }
      ghost var at := Current();
      CopyMatch(len + 2);
      MatchApplied(old(Current()), at, Current(), p, len, outSize);
    }

    /** The distance of a match in 32 bits: 0 for the end marker, and no copy from before the
        output. */
    static lemma MatchDistance(lz: Lz, p: Packet, rep: nat, outSize: nat)
      requires p.Match? && Distance(p.slot, p.foot) <= WORD && rep == Distance(p.slot, p.foot) % WORD
               && |lz.out| < outSize < WORD
      ensures IsEndMarker(p) <==> Distance(p.slot, p.foot) == WORD
      ensures 1 <= Distance(p.slot, p.foot) ==> (rep == 0 <==> IsEndMarker(p))
      ensures rep > |lz.out| ==> Apply(lz, p, outSize).None?
    {
      hide Distance, CopyBytes;
    }

    /** What a match makes of the output, once the state and the distances have changed. */
    static lemma MatchApplied(lz: Lz, at: Lz, end: Lz, p: Packet, len: nat, outSize: nat)
      requires p.Match? && p.len == len && 1 <= at.rep0 <= |lz.out| < outSize
               && at.rep0 == Distance(p.slot, p.foot) % WORD
      requires at == Lz(if lz.state < 7 then 7 else 10, at.rep0, lz.rep0, lz.rep1, lz.rep2, lz.out)
      requires Distance(p.slot, p.foot) <= WORD
      requires end == at.(out := CopyBytes(at.out, at.rep0, Min(len + 2, outSize - |at.out|)))
      ensures Apply(lz, p, outSize) == Some(end)
    {
      hide CopyBytes, Distance;
    }

    /** The kind of a repeated match, which of the four distances it uses, or a single byte
        at the last one. */
    method ReadRepKind(posState: nat) returns (ok: bool, single: bool, which: nat)
      requires Valid() && posState < 16
      modifies this`range, this`code, this`buffer, this`trace, probs
      ensures Coding() && which < 4 && (single ==> which == 0)
      ensures Reached(ok, old(trace) + RepKind(state, posState, single, which))
    {
      hide Coding, Starved;
      TableSize();
      single, which := false, 0;
      var bit;
      ok, bit := DecodeBit(IS_REP_G0 + state);
      if !ok {
        return;
      }
      if bit == 0 {
        ok, bit := DecodeBit(IS_REP0_LONG + state * 16 + posState);
        single := bit == 0;
        return;
      }
      ok, bit := DecodeBit(IS_REP_G1 + state);
      if !ok || bit == 0 {
        which := 1;
        return;
      }
      ok, bit := DecodeBit(IS_REP_G2 + state);
      which := if bit == 0 then 2 else 3;
    }

    /** A repeated match after its two kind bits. */
    method DecodeRep(posState: nat) returns (ok: bool, ghost p: Packet)
      requires Valid() && nowPos < outSize && posState < 16
      modifies this, probs, out
      ensures Coding() && (p.Rep? || p.ShortRep?) && Encodable(p)
      ensures Answered(ok, old(Current()), p, old(trace) + RepPath(old(state), posState, p))
      ensures ok ==> Valid() && nowPos > old(nowPos) && Apply(old(Current()), p, outSize) == Some(Current())
    {
      hide Coding, Starved, LenPath, Apply, RepKind, PreviousByte;
      ghost var lz := Current();
      var single, which;
      ok, single, which := ReadRepKind(posState);
      p := if single then ShortRep else Rep(which, 0);
      if !ok {
        return;
      }
      if single {
        ok := CopySingle();
      } else {
        ghost var before := trace;
        ok, p := DecodeLongRep(posState, which);
        assert before + LenPath(REP_LEN_CODER, posState, p.len) == old(trace) + RepPath(old(state), posState, p);
      }
    }

    /** A single byte at the last distance. */
    method CopySingle() returns (ok: bool)
      requires Rest() && nowPos < outSize
      modifies this`state, this`previousByte, this`nowPos, out
      ensures ok ==> Rest() && nowPos > old(nowPos) && Apply(old(Current()), ShortRep, outSize) == Some(Current())
      ensures !ok ==> Apply(old(Current()), ShortRep, outSize).None?
    {
      if nowPos == 0 {
        return false;
      }
      state := if state < 7 then 9 else 11;
      CopyByte();
      ok := true;
    }

    /** Length and copy of a repeated match. */
    method DecodeLongRep(posState: nat, which: nat) returns (ok: bool, ghost p: Packet)
      requires Valid() && nowPos < outSize && posState < 16 && which < 4
      modifies this, probs, out
      ensures Coding() && p.Rep? && p.which == which && Encodable(p)
      ensures Answered(ok, old(Current()), p, old(trace) + LenPath(REP_LEN_CODER, posState, p.len))
      ensures ok ==> Valid() && nowPos > old(nowPos) && Apply(old(Current()), p, outSize) == Some(Current())
    {
      hide Coding, Starved, LenPath, CopyBytes, PreviousByte;
      TableSize();
      RotateDistances(which);
      state := if state < 7 then 8 else 11;
      var len;
      ghost var whole;
      ok, len, whole := DecodeLength(REP_LEN_CODER, posState);
      p := Rep(which, whole);
      if !ok {
        return;
      }
      if rep0 > nowPos {
        ok := false;
        return;
      }
      CopyMatch(len + 2);
    }

    method RotateDistances(which: nat)
      requires which < 4
      modifies this`rep0, this`rep1, this`rep2, this`rep3
      ensures rep0 == old(if which == 0 then rep0 else if which == 1 then rep1 else if which == 2 then rep2 else rep3)
      ensures rep1 == old(if which == 0 then rep1 else rep0)
      ensures rep2 == old(if which <= 1 then rep2 else rep1)
      ensures rep3 == old(if which <= 2 then rep3 else rep2)
    {
      if which == 0 {
        return;
      }
      var distance;
      if which == 1 {
        distance := rep1;
      } else {
        if which == 2 {
          distance := rep2;
        } else {
          distance := rep3;
          rep3 := rep2;
        }
        rep2 := rep1;
      }
      rep1 := rep0;
      rep0 := distance;
    }

    static ghost function RepKind(s: nat, posState: nat, single: bool, which: nat): seq<Ev> {
      if which == 0
      then [Ev(Prob(IS_REP_G0 + s), 0), Ev(Prob(IS_REP0_LONG + s * 16 + posState), if single then 0 else 1)]
      else [Ev(Prob(IS_REP_G0 + s), 1)]
           + (if which == 1 then [Ev(Prob(IS_REP_G1 + s), 0)]
              else [Ev(Prob(IS_REP_G1 + s), 1), Ev(Prob(IS_REP_G2 + s), if which == 2 then 0 else 1)])
    }

    static ghost function RepPath(s: nat, posState: nat, p: Packet): seq<Ev> {
      match p
      case ShortRep => RepKind(s, posState, true, 0)
      case Rep(which, len) => RepKind(s, posState, false, which) + LenPath(REP_LEN_CODER, posState, len)
      case _ => []
    }

    /** One turn of the main loop. */
    method DecodePacket() returns (ok: bool, ended: bool, ghost p: Packet)
      requires Valid() && nowPos < outSize
      modifies this, probs, out
      ensures Coding() && Encodable(p) && props.lc <= 8
      ensures Answered(ok, old(Current()), p, old(trace) + Events(props, old(Current()), p))
      ensures ok && !ended ==> Valid() && nowPos > old(nowPos) && Apply(old(Current()), p, outSize) == Some(Current())
      ensures ok && ended ==> IsEndMarker(p) && nowPos == old(nowPos) && out[..] == old(out[..])
    {
      hide Coding, Starved, LenPath, DistPath, Apply, RepPath, Low, LitPath, LiteralBase, Matched, IsEndMarker,
           PreviousByte, Events;
      TableSize();
      PropsValid();
      PosStateBound(nowPos, props.pb);
      ghost var lz, before := Current(), trace;
      var posState := Low(nowPos, props.pb);
      ended, p := false, ShortRep;
      KindEvents(before, lz, p);
      var bit;
      ok, bit := DecodeBit(IS_MATCH + state * 16 + posState);
      if !ok {
        return;
      }
      if bit == 0 {
        ok, p := DecodeLiteral();
        KindEvents(before, lz, p);
        return;
      }
      ok, bit := DecodeBit(IS_REP + state);
      if !ok {
        return;
      }
      if bit == 0 {
        ok, ended, p := DecodeMatch(posState);
      } else {
        ok, p := DecodeRep(posState);
      }
      KindEvents(before, lz, p);
    }

    static lemma PosStateBound(pos: nat, pb: nat)
      requires pb <= 4
      ensures Low(pos, pb) < 16
    {
      LowBound(pos, pb);
      Pow2Monotone(pb, 4);
      TreeSizes();
    }

    /** The bits of a packet after the trace `t`: first its kind, then the rest. */
    lemma KindEvents(t: seq<Ev>, lz: Lz, p: Packet)
      requires Encodable(p) && props.lc <= 8
      ensures var posState := PosState(props, lz);
              var isMatch, isRep := Prob(IS_MATCH + lz.state * 16 + posState), Prob(IS_REP + lz.state);
              t + Events(props, lz, p)
              == match p
                 case Literal(b) => (t + [Ev(isMatch, 0)]) + LitPath(LiteralBase(props, lz), 8, b, Matched(lz))
                 case Match(len, slot, foot) =>
                   ((t + [Ev(isMatch, 1)]) + [Ev(isRep, 0)])
                     + (LenPath(LEN_CODER, posState, len) + DistPath(len, slot, foot))
                 case _ => ((t + [Ev(isMatch, 1)]) + [Ev(isRep, 1)]) + RepPath(lz.state, posState, p)
    {
      hide LenPath, DistPath, LitPath, LiteralBase, Matched, PosState;
    }

    static lemma DistanceBound(slot: nat, foot: nat)
      requires slot < 64 && foot < Pow2(FooterBits(slot))
      ensures 1 <= Distance(slot, foot) <= WORD
    {
      hide Shl;
      if slot >= 4 {
        var n := FooterBits(slot);
        Pow2Monotone(n + 2, 32);
        SmallPowers();
        ShlMonotone(2 + slot % 2, 3, n);
        ShlThree(n);
      } else {
        TreeSizes();
      }
    }

    static lemma ShlThree(n: nat)
      ensures Shl(3, n) == 3 * Pow2(n) && Pow2(n + 2) == 4 * Pow2(n)
    {}

    // ----- the main loop

    /** The packets `done` have been read, and written out. */
    ghost predicate Through(done: seq<Packet>)
      requires nowPos <= out.Length && props.lc <= 8
      reads this, out
    {
      && AllEncodable(done) && Replay(START, done, outSize) == Some(Current())
      && trace == Encode(props, START, done, outSize)
    }

    lemma Ran()
      requires Coding()
      ensures props.Valid() && 5 <= |input| && Run(input, StartMachine(input, props), trace) == Some(Now())
    {}

    /** All turns of the main loop, up to a full output or the end marker. */
    method DecodePackets() returns (ok: bool, ghost ps: seq<Packet>)
      requires Valid() && trace == [] && Current() == START
      modifies this, probs, out
      ensures Coding() && (ok ==> nowPos <= out.Length && IsDone(props, outSize, ps, trace, out[..nowPos]))
      ensures !ok ==> NotAStream(props, input, outSize)
    {
      hide Coding, Replay, Encode, AllEncodable, Events, Apply, Encodable, Run, Stuck, IsDone, StartMachine,
           Normalize, PreviousByte, IsEndMarker;
      ps := [];
      NoneYet(props, outSize);
      PropsValid();
      while nowPos < outSize
        invariant Valid() && Through(ps)
        decreases outSize - nowPos
      {
        ghost var lz, before := Current(), trace;
        Ran();
        var ended;
        ghost var p;
        ok, ended, p := DecodePacket();
        Ran();
        if !ok {
          IsStuck(props, input, outSize, ps, lz, p, trace);
          NothingFits(props, input, outSize, ps, p, trace);
          return;
        }
        if ended {
          ThroughEnd(props, outSize, ps, lz, p);
          ps := ps + [p];
          return;
        }
        ThroughMore(props, outSize, ps, lz, p);
        ps := ps + [p];
      }
      ThroughFull(props, outSize, ps, Current());
      ok := true;
    }
  }

  /** `LzmaDecode`: succeeds exactly when the stream is the code of some packets, and then
      leaves in `out` what they say. */
  method LzmaDecode(input: seq<byte>, props: Props, probs: array<nat>, out: array<byte>, outSize: nat)
    returns (ok: bool, inProcessed: nat, outProcessed: nat, ghost ps: seq<Packet>, ghost lz: Lz)
    requires props.Valid() && probs.Length == props.NumProbs() && outSize <= out.Length && outSize < WORD
    modifies probs, out
    ensures ok ==> Decodes(props, input, outSize, ps, lz, inProcessed)
    ensures ok ==> outProcessed == |lz.out| <= out.Length && out[..outProcessed] == lz.out
    ensures !ok ==> NotAStream(props, input, outSize) && inProcessed == outProcessed == 0
  {
    hide Finish, Encode, AllEncodable, Run, Good, Normalize, Decodes, IsDone;
    inProcessed, outProcessed, ps, lz := 0, 0, [], START;
    var d := new Decoder(input, props, probs, out, outSize);
    ok := d.Start();
    if !ok {
      TooShort(props, input, outSize);
      return;
    }
    ok, ps := d.DecodePackets();
    if !ok {
      return;
    }
    ghost var m := d.Now();
    lz := TheResult(props, input, outSize, ps, d.trace, m, d.out[..d.nowPos]);
    ok := d.NormalizeRange();
    if ok {
      inProcessed, outProcessed := d.buffer, d.nowPos;
    }
  }
}
