/** The coder's side of the JPEG entropy code, as ITU-T T.81 describes it: the codewords of
    section C.2, the magnitude bits of section F.1.2, the stuffed bytes of section F.1.2.3;
    and that the decoder inverts it. */
module JpegCoding {
  import opened Wrappers
  import opened PowersOfTwo
  import opened JpegBits
  import opened HuffmanCode

  // ----- EXTEND

  function Abs(x: int): nat { if x < 0 then -x else x }

  /** The values that `t` magnitude bits stand for. */
  predicate OfSize(x: int, t: nat) {
    if t == 0 then x == 0 else Pow2(t - 1) <= Abs(x) < Pow2(t)
  }

  /** The magnitude bits of a value: the value itself, or the low bits of one less than it if
      it is negative. */
  function Magnitude(x: int, t: nat): int { if x >= 0 then x else x - 1 + Pow2(t) }

  /** Every number of `t` bits stands for a value of that size ... */
  lemma ExtendOfSize(v: nat, t: nat)
    requires v < Pow2(t)
    ensures OfSize(Extend(v, t), t) && Magnitude(Extend(v, t), t) == v
  {
    if t == 0 { assert Pow2(0) == 1; } else { PowerStep(t); }
  }

  /** ... and every such value has its number. */
  lemma ExtendInverts(x: int, t: nat)
    requires OfSize(x, t)
    ensures 0 <= Magnitude(x, t) < Pow2(t) && Extend(Magnitude(x, t), t) == x
  {
    if t > 0 { PowerStep(t); }
  }

  lemma ExtendIncreases(v: nat, w: nat, t: nat)
    requires v < w < Pow2(t)
    ensures Extend(v, t) < Extend(w, t)
  {
    if t > 0 { PowerStep(t); }
  }

  // ----- the codewords in the order of their symbols

  /** The length of the codeword of symbol `k`, less one, among the first `n` lengths. */
  function LengthAmong(lens: seq<nat>, k: nat, n: nat): (i: nat)
    requires n <= |lens| && k < SymbolsBelow(lens, n)
    ensures i < n && SymbolsBelow(lens, i) <= k < SymbolsBelow(lens, i + 1)
  {
    if k < SymbolsBelow(lens, n - 1) then LengthAmong(lens, k, n - 1) else n - 1
  }

  function LengthOf(lens: seq<nat>, k: nat): (i: nat)
    requires k < SymbolsBelow(lens, |lens|)
    ensures i < |lens| && SymbolsBelow(lens, i) <= k < SymbolsBelow(lens, i + 1)
  {
    LengthAmong(lens, k, |lens|)
  }

  lemma {:induction false} SymbolsGrow(lens: seq<nat>, i: nat, j: nat)
    requires i <= j <= |lens|
    ensures SymbolsBelow(lens, i) <= SymbolsBelow(lens, j)
  {
    if i < j { SymbolsGrow(lens, i, j - 1); }
  }

  /** `Generate_code_table`: counting up, and a zero appended for every step in length. */
  function Codeword(lens: seq<nat>, k: nat): nat
    requires k < SymbolsBelow(lens, |lens|)
  {
    if k == 0 then 0
    else
      LengthsGrow(lens, k);
      Shl(Codeword(lens, k - 1) + 1, LengthOf(lens, k) - LengthOf(lens, k - 1))
  }

  lemma LengthsGrow(lens: seq<nat>, k: nat)
    requires 0 < k < SymbolsBelow(lens, |lens|)
    ensures LengthOf(lens, k - 1) <= LengthOf(lens, k)
  {
    hide SymbolsBelow, LengthOf;
    var i, j := LengthOf(lens, k - 1), LengthOf(lens, k);
    if j < i { SymbolsGrow(lens, j + 1, i); }
  }

  /** Where no codeword has a length, the next first codeword is the last one shifted. */
  lemma {:induction false} SkipEmpty(lens: seq<nat>, i: nat, j: nat)
    requires i < j < |lens| && SymbolsBelow(lens, j) == SymbolsBelow(lens, i + 1)
    ensures First(lens, j) == Shl(Last(lens, i), j - i)
    decreases j
  {
    if i + 1 < j {
      SymbolsGrow(lens, i + 1, j - 1);
      SkipEmpty(lens, i, j - 1);
      hide Pow2;
      ShlStep(Last(lens, i), j - 1 - i);
    } else {
      assert Pow2(1) == 2;
    }
  }

  lemma ShlStep(a: nat, p: nat)
    ensures Shl(a, p + 1) == 2 * Shl(a, p)
  {
    var m := Pow2(p);
    assert a * (2 * m) == 2 * (a * m);
  }

  lemma {:induction false} NoneYet(lens: seq<nat>, i: nat)
    requires i <= |lens| && SymbolsBelow(lens, i) == 0
    ensures First(lens, i) == 0
  {
    if i > 0 { NoneYet(lens, i - 1); }
  }

  /** The codewords are the ones the decoder counts with. */
  lemma {:induction false} CodewordIs(lens: seq<nat>, k: nat)
    requires k < SymbolsBelow(lens, |lens|)
    ensures var i := LengthOf(lens, k);
            Codeword(lens, k) == First(lens, i) + (k - SymbolsBelow(lens, i)) < Last(lens, i)
    decreases k
  {
    hide LengthOf, Pow2, First;
    var i := LengthOf(lens, k);
    SymbolsStep(lens, i);
    if k == 0 {
      NoneYet(lens, i);
    } else {
      var h := LengthOf(lens, k - 1);
      CodewordIs(lens, k - 1);
      LengthsGrow(lens, k);
      SymbolsStep(lens, h);
      if h < i {
        SymbolsGrow(lens, h + 1, i);
        SkipEmpty(lens, h, i);
      } else {
        ShlZero(Codeword(lens, k - 1) + 1);
      }
    }
  }

  lemma SymbolsStep(lens: seq<nat>, i: nat)
    requires i < |lens|
    ensures SymbolsBelow(lens, i + 1) == SymbolsBelow(lens, i) + lens[i]
  {}

  // ----- bits

  /** The `n` bits of `v`, the most significant first. */
  function Bits(v: nat, n: nat): (bits: seq<nat>)
    ensures |bits| == n
  {
    if n == 0 then [] else Bits(v / 2, n - 1) + [v % 2]
  }

  /** The data has these bits at `pos`. */
  predicate Carries(clean: seq<byte>, pos: nat, bits: seq<nat>) {
    forall k | 0 <= k < |bits| :: Bit(clean, pos + k) == bits[k]
  }

  lemma {:induction false} CarriesNumber(clean: seq<byte>, pos: nat, v: nat, n: nat)
    requires Carries(clean, pos, Bits(v, n)) && v < Pow2(n)
    ensures Peek(clean, pos, n) == v
    decreases n
  {
    hide Bit, Pow2;
    if n > 0 {
      PowerStep(n);
      var bits, half := Bits(v, n), Bits(v / 2, n - 1);
      forall k | 0 <= k < n - 1 ensures Bit(clean, pos + k) == half[k] {
        assert bits[k] == half[k];
      }
      assert bits[n - 1] == v % 2;
      CarriesNumber(clean, pos, v / 2, n - 1);
    } else {
      assert v == 0 by { PowerZero(); }
    }
  }

  lemma PowerZero()
    ensures Pow2(0) == 1
  {}

  lemma CarriesBoth(clean: seq<byte>, pos: nat, a: seq<nat>, b: seq<nat>)
    requires Carries(clean, pos, a + b)
    ensures Carries(clean, pos, a) && Carries(clean, pos + |a|, b)
  {
    hide Bit;
    assert forall k | 0 <= k < |a| :: (a + b)[k] == a[k];
    forall k | 0 <= k < |b| ensures Bit(clean, pos + |a| + k) == b[k] {
      assert (a + b)[|a| + k] == b[k];
    }
  }

  // ----- coefficients

  /** A coefficient to be written: the symbol for run and size, and the value. */
  datatype Coded = Coded(symbol: nat, value: int)

  predicate Codable(lens: seq<nat>, vals: seq<byte>, w: Coded) {
    && w.symbol < SymbolsBelow(lens, |lens|) <= |vals|
    && OfSize(w.value, vals[w.symbol] % 16)
  }

  function CodeOf(lens: seq<nat>, vals: seq<byte>, w: Coded): seq<nat>
    requires Codable(lens, vals, w)
  {
    var size := vals[w.symbol] % 16;
    ExtendInverts(w.value, size);
    Bits(Codeword(lens, w.symbol), LengthOf(lens, w.symbol) + 1) + Bits(Magnitude(w.value, size), size)
  }

  /** Data that starts with the code of a coefficient decodes to its run and its value. */
  lemma DecodeInverts(lens: seq<nat>, vals: seq<byte>, clean: seq<byte>, pos: nat, w: Coded)
    requires ValidCode(lens, vals) && Codable(lens, vals, w) && Carries(clean, pos, CodeOf(lens, vals, w))
    ensures Decode(lens, vals, clean, pos)
         == Coefficient(vals[w.symbol] / 16, w.value, |CodeOf(lens, vals, w)|)
  {
    hide Bit, Peek, First, SymbolsBelow, LengthOf, Codeword, Pow2, Extend, Magnitude, DecodeLength, OfSize, Carries;
    var i, size := LengthOf(lens, w.symbol), vals[w.symbol] % 16;
    var code := Codeword(lens, w.symbol);
    ExtendInverts(w.value, size);
    CodewordIs(lens, w.symbol);
    KraftAt(lens, i);
    CarriesBoth(clean, pos, Bits(code, i + 1), Bits(Magnitude(w.value, size), size));
    CarriesNumber(clean, pos, code, i + 1);
    CarriesNumber(clean, pos + i + 1, Magnitude(w.value, size), size);
    DecodeLengthExact(lens, clean, pos, i);
  }

  // ----- whole scans

  function CodeAll(lens: seq<nat>, vals: seq<byte>, ws: seq<Coded>): seq<nat>
    requires forall k | 0 <= k < |ws| :: Codable(lens, vals, ws[k])
  {
    if ws == [] then [] else CodeOf(lens, vals, ws[0]) + CodeAll(lens, vals, ws[1..])
  }

  /** Decoding one coefficient after another from `pos` gives these runs and values. */
  ghost predicate DecodesTo(lens: seq<nat>, vals: seq<byte>, clean: seq<byte>, pos: nat, ws: seq<Coded>)
    requires |lens| == 16 && SymbolsBelow(lens, 16) <= |vals|
    requires forall k | 0 <= k < |ws| :: ws[k].symbol < |vals|
    decreases |ws|
  {
    ws == [] ||
    match Decode(lens, vals, clean, pos)
    case BadCode => false
    case Coefficient(run, value, consumed) =>
      && run == vals[ws[0].symbol] / 16 && value == ws[0].value
      && DecodesTo(lens, vals, clean, pos + consumed, ws[1..])
  }

  /** What a coder has written, the decoder reads. */
  lemma {:induction false} ScanInverts(lens: seq<nat>, vals: seq<byte>, clean: seq<byte>, pos: nat, ws: seq<Coded>)
    requires ValidCode(lens, vals) && forall k | 0 <= k < |ws| :: Codable(lens, vals, ws[k])
    requires Carries(clean, pos, CodeAll(lens, vals, ws))
    ensures DecodesTo(lens, vals, clean, pos, ws)
    decreases |ws|
  {
    hide Carries, CodeOf, Decode, Codable, ValidCode;
    if ws != [] {
      var code := CodeOf(lens, vals, ws[0]);
      CarriesBoth(clean, pos, code, CodeAll(lens, vals, ws[1..]));
      DecodeInverts(lens, vals, clean, pos, ws[0]);
      ScanInverts(lens, vals, clean, pos + |code|, ws[1..]);
    }
  }

  // ----- stuffing

  /** A zero byte after every 0xFF. */
  function Stuff(bytes: seq<byte>): seq<byte> {
    if bytes == [] then []
    else (if bytes[0] == 0xFF then [0xFF, 0] else [bytes[0]]) + Stuff(bytes[1..])
  }

  /** The reader takes the stuffing out again, up to the marker that ends the data. */
  lemma {:induction false} CleanStuffed(before: seq<byte>, bytes: seq<byte>, marker: byte, after: seq<byte>)
    requires marker != 0
    ensures var data := before + (Stuff(bytes) + ([0xFF, marker] + after));
            Clean(data, |before|) == bytes && MarkerAhead(data, |before|)
    decreases |bytes|
  {
    var rest := [0xFF, marker] + after;
    var data := before + (Stuff(bytes) + rest);
    if bytes == [] {
      assert data[|before|] == 0xFF && data[|before| + 1] == marker;
    } else {
      var head := if bytes[0] == 0xFF then [0xFF, 0] else [bytes[0]];
      assert Stuff(bytes) + rest == head + (Stuff(bytes[1..]) + rest);
      assert data == (before + head) + (Stuff(bytes[1..]) + rest);
      CleanStuffed(before + head, bytes[1..], marker, after);
      assert data[|before|] == bytes[0];
      if bytes[0] == 0xFF { assert data[|before| + 1] == 0; }
    }
  }
}
