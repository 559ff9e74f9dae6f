/** Canonical Huffman codes as ITU-T T.81 defines them (section C.2 for the codes,
    section F.2.2 for decoding), independent of the tables the decoder builds.

    `lens[i]` is the number of codewords of `i + 1` bits, `vals` the symbols in the order
    of their codewords. */
module HuffmanCode {
  import opened Wrappers
  import opened PowersOfTwo
  import opened JpegBits

  /** The first codeword of `i + 1` bits. */
  function First(lens: seq<nat>, i: nat): nat
    requires i <= |lens|
  {
    if i == 0 then 0 else 2 * (First(lens, i - 1) + lens[i - 1])
  }

  /** One past the last codeword of `i + 1` bits. */
  function Last(lens: seq<nat>, i: nat): nat
    requires i < |lens|
  {
    First(lens, i) + lens[i]
  }

  /** The index of the first symbol whose codeword has `i + 1` bits. */
  function SymbolsBelow(lens: seq<nat>, i: nat): nat
    requires i <= |lens|
  {
    if i == 0 then 0 else SymbolsBelow(lens, i - 1) + lens[i - 1]
  }

  /** Sixteen lengths that satisfy the Kraft inequality, with a symbol for every codeword. */
  ghost predicate ValidCode(lens: seq<nat>, vals: seq<byte>) {
    && |lens| == 16 && Last(lens, 15) <= Pow2(16)
    && SymbolsBelow(lens, 16) <= |vals| <= 256
  }

  /** The next `i + 1` bits are a codeword. */
  predicate CodewordAt(lens: seq<nat>, clean: seq<byte>, pos: nat, i: nat)
    requires i < |lens|
  {
    First(lens, i) <= Peek(clean, pos, i + 1) < Last(lens, i)
  }

  /** Bit-by-bit decoding: lengthen the code until it is below the last one of its length. */
  function DecodeLength(lens: seq<nat>, clean: seq<byte>, pos: nat, i: nat): Option<nat>
    requires i <= |lens|
    decreases |lens| - i
  {
    if i == |lens| then None
    else if Peek(clean, pos, i + 1) < Last(lens, i) then Some(i)
    else DecodeLength(lens, clean, pos, i + 1)
  }

  /** The EXTEND procedure: the signed value of `t` magnitude bits. */
  function Extend(v: nat, t: nat): int {
    if t == 0 then 0 else if v < Pow2(t - 1) then v - Pow2(t) + 1 else v
  }

  datatype Decoded = BadCode | Coefficient(run: nat, value: int, consumed: nat)

  /** One coefficient: a Huffman code for run and size, then `size` magnitude bits. */
  function Decode(lens: seq<nat>, vals: seq<byte>, clean: seq<byte>, pos: nat): Decoded
    requires |lens| == 16 && SymbolsBelow(lens, 16) <= |vals|
  {
    match DecodeLength(lens, clean, pos, 0)
    case None => BadCode
    case Some(i) =>
      DecodeLengthFrom(lens, clean, pos, 0, i);
      SymbolInRange(lens, i, Peek(clean, pos, i + 1) - First(lens, i));
      var symbol := vals[SymbolsBelow(lens, i) + (Peek(clean, pos, i + 1) - First(lens, i))];
      Coefficient(symbol / 16, Extend(Peek(clean, pos + i + 1, symbol % 16), symbol % 16), i + 1 + symbol % 16)
  }

  // ----- bit-by-bit decoding finds the one codeword that starts the data

  lemma {:induction false} DecodeLengthFrom(lens: seq<nat>, clean: seq<byte>, pos: nat, from: nat, i: nat)
    requires from <= |lens| && DecodeLength(lens, clean, pos, from) == Some(i)
    requires from > 0 ==> Peek(clean, pos, from) >= Last(lens, from - 1)
    ensures from <= i < |lens| && CodewordAt(lens, clean, pos, i)
    decreases |lens| - from
  {
    hide Bit;
    if Peek(clean, pos, from + 1) >= Last(lens, from) {
      DecodeLengthFrom(lens, clean, pos, from + 1, i);
    }
  }

  /** What follows a codeword is below the first code of every greater length. */
  lemma {:induction false} BelowLonger(lens: seq<nat>, clean: seq<byte>, pos: nat, i: nat, j: nat)
    requires i < j < |lens| && Peek(clean, pos, i + 1) < Last(lens, i)
    ensures Peek(clean, pos, j + 1) < First(lens, j)
    decreases j
  {
    hide Bit;
    BitBound(clean, pos + j);
    if j > i + 1 { BelowLonger(lens, clean, pos, i, j - 1); }
  }

  /** No codeword is a prefix of another: at most one length fits the data. */
  lemma PrefixFree(lens: seq<nat>, clean: seq<byte>, pos: nat, i: nat, j: nat)
    requires i < |lens| && j < |lens| && CodewordAt(lens, clean, pos, i) && CodewordAt(lens, clean, pos, j)
    ensures i == j
  {
    hide Peek, First;
    if i < j { BelowLonger(lens, clean, pos, i, j); }
    if j < i { BelowLonger(lens, clean, pos, j, i); }
  }

  /** Decoding bit by bit finds exactly the codeword the data starts with, and fails
      exactly when it starts with none. */
  lemma DecodeLengthExact(lens: seq<nat>, clean: seq<byte>, pos: nat, i: nat)
    requires i < |lens|
    ensures DecodeLength(lens, clean, pos, 0) == Some(i) <==> CodewordAt(lens, clean, pos, i)
  {
    if DecodeLength(lens, clean, pos, 0) == Some(i) {
      DecodeLengthFrom(lens, clean, pos, 0, i);
    }
    if CodewordAt(lens, clean, pos, i) {
      DecodeLengthStops(lens, clean, pos, 0, i);
      var k := DecodeLength(lens, clean, pos, 0).value;
      DecodeLengthFrom(lens, clean, pos, 0, k);
      PrefixFree(lens, clean, pos, i, k);
    }
  }

  lemma {:induction false} DecodeLengthStops(lens: seq<nat>, clean: seq<byte>, pos: nat, from: nat, i: nat)
    requires from <= i < |lens| && Peek(clean, pos, i + 1) < Last(lens, i)
    ensures DecodeLength(lens, clean, pos, from).Some?
    decreases i - from
  {
    if from < i { DecodeLengthStops(lens, clean, pos, from + 1, i); }
  }

  lemma {:induction false} SymbolsBelowMonotone(lens: seq<nat>, i: nat, j: nat)
    requires i <= j <= |lens|
    ensures SymbolsBelow(lens, i) <= SymbolsBelow(lens, j)
    decreases j
  {
    if i < j { SymbolsBelowMonotone(lens, i, j - 1); }
  }

  lemma SymbolInRange(lens: seq<nat>, i: nat, j: nat)
    requires i < |lens| && j < lens[i]
    ensures SymbolsBelow(lens, i) + j < SymbolsBelow(lens, |lens|)
  {
    SymbolsBelowMonotone(lens, i + 1, |lens|);
  }

  // ----- codes laid side by side

  /** Scaled to a common length, the codes of each length follow those of the shorter ones. */
  lemma {:induction false} LastScaled(lens: seq<nat>, i: nat, j: nat, n: nat)
    requires i <= j < |lens| && j <= n
    ensures Shl(Last(lens, i), n - i) <= Shl(Last(lens, j), n - j)
    ensures i < j ==> Shl(Last(lens, i), n - i) <= Shl(First(lens, j), n - j)
    decreases j - i
  {
    hide Shl, Pow2;
    if i < j {
      LastScaled(lens, i, j - 1, n);
      ShlDouble(Last(lens, j - 1), n - j);
      ShlMonotone(First(lens, j), Last(lens, j), n - j);
    }
  }

  /** Kraft: the codes of up to `i + 1` bits fill at most the whole space. */
  lemma KraftAt(lens: seq<nat>, i: nat)
    requires |lens| == 16 && Last(lens, 15) <= Pow2(16) && i < 16
    ensures Last(lens, i) <= Pow2(i + 1)
  {
    hide First, Last;
    LastScaled(lens, i, 15, 15);
    Pow2Add(i + 1, 15 - i);
    SmallPowers();
    ShlMonotone(Last(lens, i), Pow2(i + 1), 15 - i);
  }
}
