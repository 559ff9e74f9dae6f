/** The table-driven Huffman decoder of the JPEG library: `dec_makehuff` builds a 10-bit
    lookup table that fuses code lookup, run and sign extension; `DEC_REC` decodes with
    it and `dec_rec2` is the slow path behind it. */
module JpegHuffman {
  import opened Wrappers
  import opened PowersOfTwo
  import opened JpegBits
  import opened HuffmanCode

  const DECBITS: nat := 10

  /** The layout of a table entry: value or size, run, the "value known" bit, and the
      number of bits to give back. */
  function Pack(x: int, run: nat, known: nat, backup: nat): int {
    x * 0x10000 + run * 0x100 + known * 0x80 + backup
  }

  /** The entry for a symbol of `i + 1` code bits followed by the bits `d`. */
  function EntryFor(symbol: byte, i: nat, d: nat): int
    requires i < DECBITS
  {
    var v, run := symbol % 16, symbol / 16;
    if v + i < DECBITS then Pack(Extend(Shr(d, DECBITS - 1 - v - i), v), run, 1, DECBITS - (i + 1 + v))
    else Pack(v, run, 0, DECBITS - (i + 1))
  }

  /** The code length among the first bits of a 10-bit number. */
  function FastLength(lens: seq<nat>, r: nat, i: nat): (n: Option<nat>)
    requires i <= DECBITS <= |lens|
    ensures n.Some? ==> i <= n.value < DECBITS && Shr(r, DECBITS - 1 - n.value) < Last(lens, n.value)
    decreases DECBITS - i
  {
    if i == DECBITS then None
    else if Shr(r, DECBITS - 1 - i) < Last(lens, i) then Some(i)
    else FastLength(lens, r, i + 1)
  }

  /** What the table must hold for the next ten bits `r`. */
  ghost function FastEntry(lens: seq<nat>, vals: seq<byte>, r: nat): int
    requires ValidCode(lens, vals)
  {
    match FastLength(lens, r, 0)
    case None => 0
    case Some(i) =>
      FastLengthFrom(lens, r, 0, i);
      SymbolInRange(lens, i, Shr(r, DECBITS - 1 - i) - First(lens, i));
      EntryFor(vals[SymbolsBelow(lens, i) + (Shr(r, DECBITS - 1 - i) - First(lens, i))], i, r % Pow2(DECBITS - 1 - i))
  }

  lemma {:induction false} FastLengthFrom(lens: seq<nat>, r: nat, from: nat, i: nat)
    requires |lens| == 16 && from <= DECBITS && FastLength(lens, r, from) == Some(i)
    requires 0 < from < DECBITS ==> Shr(r, DECBITS - from) >= Last(lens, from - 1)
    ensures First(lens, i) <= Shr(r, DECBITS - 1 - i) < Last(lens, i)
    decreases DECBITS - from
  {
    hide Shr;
    if from > 0 { ShrStep(r, DECBITS - 1 - from); }
    if Shr(r, DECBITS - 1 - from) >= Last(lens, from) {
      FastLengthFrom(lens, r, from + 1, i);
    }
  }

  lemma ShrStep(r: nat, p: nat)
    ensures Shr(r, p + 1) == Shr(r, p) / 2
  {
    DivTwice(r, Pow2(p));
  }

  // ----- the table entry of each codeword

  /** The numbers `c .. c + 2^(9-i)` that start with codeword `j` of `i + 1` bits. */
  lemma EntryAt(lens: seq<nat>, vals: seq<byte>, i: nat, j: nat, d: nat)
    requires ValidCode(lens, vals) && i < DECBITS && j < lens[i] && d < Pow2(DECBITS - 1 - i)
    ensures var r := Shl(First(lens, i) + j, DECBITS - 1 - i) + d;
            && r < 1024
            && SymbolsBelow(lens, i) + j < |vals|
            && FastEntry(lens, vals, r) == EntryFor(vals[SymbolsBelow(lens, i) + j], i, d)
  {
    hide First, SymbolsBelow, EntryFor, Pow2, Shl, Shr;
    var p, code := DECBITS - 1 - i, First(lens, i) + j;
    var r := Shl(code, p) + d;
    ShiftedBack(code, d, p);
    SymbolInRange(lens, i, j);
    CodesBelow1024(lens, i);
    ShlMonotone(code + 1, Last(lens, i), p);
    ShlAdd(code, 1, p);
    ShlOne(p);
    NoShorter(lens, r, i, 0);
  }

  lemma ShiftedBack(code: nat, d: nat, p: nat)
    requires d < Pow2(p)
    ensures Shr(Shl(code, p) + d, p) == code && (Shl(code, p) + d) % Pow2(p) == d
  {
    DivUnique(Shl(code, p) + d, code, d, Pow2(p));
  }

  lemma CodesBelow1024(lens: seq<nat>, i: nat)
    requires |lens| == 16 && Last(lens, 15) <= Pow2(16) && i < DECBITS
    ensures Shl(Last(lens, i), DECBITS - 1 - i) <= 1024
  {
    hide First, Last;
    KraftAt(lens, i);
    ShlMonotone(Last(lens, i), Pow2(i + 1), DECBITS - 1 - i);
    Pow2Add(i + 1, DECBITS - 1 - i);
    SmallPowers();
  }

  /** A number that starts with a code of `i + 1` bits starts with no shorter one. */
  lemma {:induction false} NoShorter(lens: seq<nat>, r: nat, i: nat, from: nat)
    requires |lens| == 16 && from <= i < DECBITS
    requires First(lens, i) <= Shr(r, DECBITS - 1 - i) < Last(lens, i)
    ensures FastLength(lens, r, from) == Some(i)
    decreases i - from
  {
    hide First, Last, Shr, Shl;
    if from < i {
      LastScaled(lens, from, i, DECBITS - 1);
      ShlBelow(r, First(lens, i), DECBITS - 1 - i);
      ShlBelow(r, Last(lens, from), DECBITS - 1 - from);
      NoShorter(lens, r, i, from + 1);
    }
  }

  /** Numbers past the last code of ten bits start with no code of at most ten bits. */
  lemma {:induction false} NoneAbove(lens: seq<nat>, r: nat, from: nat)
    requires |lens| == 16 && from <= DECBITS && r >= Last(lens, DECBITS - 1)
    ensures FastLength(lens, r, from) == None
    decreases DECBITS - from
  {
    hide First, Last, Shr, Shl;
    if from < DECBITS {
      LastScaled(lens, from, DECBITS - 1, DECBITS - 1);
      ShlBelow(r, Last(lens, from), DECBITS - 1 - from);
      ShlZero(Last(lens, DECBITS - 1));
      NoneAbove(lens, r, from + 1);
    }
  }

  // ----- the tables

  /** `struct dec_hufftbl` */
  class HuffTable {
    const maxcode: array<nat>
    const valptr: array<nat>
    const vals: array<byte>
    const llvals: array<int>

    constructor ()
      ensures Shaped() && fresh(maxcode) && fresh(valptr) && fresh(vals) && fresh(llvals)
    {
      maxcode, valptr, vals, llvals := new nat[17], new nat[16], new byte[256], new int[1024];
    }

    predicate Shaped() {
      && maxcode.Length == 17 && valptr.Length == 16 && vals.Length == 256 && llvals.Length == 1024
      && maxcode != valptr
    }

    /** The length tables of the first `n` lengths. */
    ghost predicate LengthsBuilt(lens: seq<nat>, n: nat)
      requires Shaped() && |lens| == 16
      reads maxcode, valptr
    {
      n <= 16 && forall i | 0 <= i < n :: maxcode[i] == Last(lens, i) && valptr[i] == SymbolsBelow(lens, i)
    }

    /** The table holds the entries of all ten-bit numbers below `limit`. */
    ghost predicate Filled(lens: seq<nat>, huffvals: seq<byte>, limit: nat)
      requires Shaped() && ValidCode(lens, huffvals)
      reads llvals
    {
      forall r: nat | r < 1024 :: llvals[r] == if r < limit then FastEntry(lens, huffvals, r) else 0
    }

    /** The tables belong to the code given by `lens` and `huffvals`. */
    ghost predicate Built(lens: seq<nat>, huffvals: seq<byte>)
      reads maxcode, valptr, vals, llvals
    {
      && Shaped() && ValidCode(lens, huffvals)
      && LengthsBuilt(lens, 16) && maxcode[16] == 0x20000
      && (forall k | 0 <= k < SymbolsBelow(lens, 16) :: vals[k] == huffvals[k])
      && (forall r: nat | r < 1024 :: llvals[r] == FastEntry(lens, huffvals, r))
    }

    static ghost function FillTo(lens: seq<nat>, i: nat, j: nat): nat
      requires |lens| == 16 && i <= 16
    {
      if i < DECBITS then Shl(First(lens, i) + j, DECBITS - 1 - i) else Last(lens, DECBITS - 1)
    }

    /** `dec_makehuff` */
    method MakeHuff(lens: seq<nat>, huffvals: seq<byte>)
      requires Shaped() && ValidCode(lens, huffvals)
      modifies maxcode, valptr, vals, llvals
      ensures Built(lens, huffvals)
    {
      hide FastEntry, Shl, Pow2;
      for i := 0 to 1024
        invariant forall r | 0 <= r < i :: llvals[r] == 0
      {
        llvals[i] := 0;
      }
      var code, k := 0, 0;
      FillStart(lens);
      for i := 0 to 16
        invariant code == First(lens, i) && k == SymbolsBelow(lens, i) <= |huffvals|
        invariant LengthsBuilt(lens, i) && vals[..k] == huffvals[..k]
        invariant Filled(lens, huffvals, FillTo(lens, i, 0))
      {
        valptr[i] := k;
        SymbolsBelowMonotone(lens, i + 1, 16);
        code, k := BuildLength(lens, huffvals, i, code, k);
        FillNext(lens, i);
        maxcode[i] := code;
        code := code * 2;
      }
      maxcode[16] := 0x20000;
      forall r: nat | Last(lens, DECBITS - 1) <= r < 1024 ensures FastEntry(lens, huffvals, r) == 0 {
        EntryAbove(lens, huffvals, r);
      }
      assert forall k | 0 <= k < SymbolsBelow(lens, 16) :: vals[k] == vals[..SymbolsBelow(lens, 16)][k];
    }

    /** The codes of `i + 1` bits. */
    method BuildLength(lens: seq<nat>, huffvals: seq<byte>, i: nat, code0: nat, k0: nat) returns (code: nat, k: nat)
      requires Shaped() && ValidCode(lens, huffvals) && i < 16
      requires code0 == First(lens, i) && k0 == SymbolsBelow(lens, i) && SymbolsBelow(lens, i + 1) <= |huffvals|
      requires vals[..k0] == huffvals[..k0] && Filled(lens, huffvals, FillTo(lens, i, 0))
      modifies vals, llvals
      ensures code == Last(lens, i) && k == SymbolsBelow(lens, i + 1)
      ensures vals[..k] == huffvals[..k] && Filled(lens, huffvals, FillTo(lens, i, lens[i]))
    {
      hide FastEntry, First, Shl, Filled, Pow2;
      code, k := code0, k0;
      for j := 0 to lens[i]
        invariant code == First(lens, i) + j && k == k0 + j
        invariant vals[..k] == huffvals[..k] && Filled(lens, huffvals, FillTo(lens, i, j))
      {
        vals[k] := huffvals[k];
        assert vals[..k + 1] == vals[..k] + [vals[k]] && huffvals[..k + 1] == huffvals[..k] + [huffvals[k]];
        if i < DECBITS {
          FillCode(lens, huffvals, i, j, code, k);
        }
        code := code + 1;
        k := k + 1;
      }
    }

    /** The table entries of one codeword. */
    method FillCode(lens: seq<nat>, huffvals: seq<byte>, i: nat, ghost j: nat, code: nat, k: nat)
      requires Shaped() && ValidCode(lens, huffvals) && i < DECBITS && j < lens[i]
      requires code == First(lens, i) + j && k == SymbolsBelow(lens, i) + j
      requires k < |huffvals| && vals[k] == huffvals[k] && Filled(lens, huffvals, FillTo(lens, i, j))
      modifies llvals
      ensures Filled(lens, huffvals, FillTo(lens, i, j + 1))
    {
      hide FastEntry, First, Shl, EntryFor, Pow2;
      var c := Shl(code, DECBITS - 1 - i);
      var n := Pow2(DECBITS - 1 - i);
      ShlAdd(code, 1, DECBITS - 1 - i);
      ShlOne(DECBITS - 1 - i);
      var d := n;
      while d > 0
        invariant d <= n
        invariant forall r: nat | r < 1024 ::
                    llvals[r] == if r < c || c + d <= r < c + n then FastEntry(lens, huffvals, r) else 0
      {
        d := d - 1;
        EntryAt(lens, huffvals, i, j, d);
        var x := Entry(vals[k], i, d);
        llvals[c + d] := x;
      }
    }

    /** One table entry. */
    static method Entry(symbol: byte, i: nat, d: nat) returns (x: int)
      requires i < DECBITS && d < Pow2(DECBITS - 1 - i)
      ensures x == EntryFor(symbol, i, d)
    {
      var v := symbol % 16;
      if v + i < DECBITS {
        DivUnique(d, 0, d, Pow2(DECBITS - 1 - i));
        x := Shr(d, DECBITS - 1 - v - i);
        if v != 0 && x < Pow2(v - 1) {
          x := x - Pow2(v) + 1;
        }
        x := Pack(x, symbol / 16, 1, DECBITS - (i + 1 + v));
      } else {
        x := Pack(v, symbol / 16, 0, DECBITS - (i + 1));
      }
    }

    static lemma FillStart(lens: seq<nat>)
      requires |lens| == 16
      ensures FillTo(lens, 0, 0) == 0
    {}

    static lemma FillNext(lens: seq<nat>, i: nat)
      requires |lens| == 16 && i < 16
      ensures FillTo(lens, i, lens[i]) == FillTo(lens, i + 1, 0)
    {
      hide Shl, Pow2;
      if i + 1 < DECBITS {
        ShlDouble(Last(lens, i), DECBITS - 1 - (i + 1));
      } else if i + 1 == DECBITS {
        ShlZero(Last(lens, i));
      }
    }

    static lemma EntryAbove(lens: seq<nat>, huffvals: seq<byte>, r: nat)
      requires ValidCode(lens, huffvals) && r >= Last(lens, DECBITS - 1)
      ensures FastEntry(lens, huffvals, r) == 0
    {
      NoneAbove(lens, r, 0);
    }
  }

  // ----- fused decoding agrees with bit-by-bit decoding

  /** The first ten bits determine a code of at most ten bits. */
  lemma {:induction false} FastLengthAgrees(lens: seq<nat>, clean: seq<byte>, pos: nat, from: nat)
    requires |lens| == 16 && from <= DECBITS
    ensures var r := Peek(clean, pos, DECBITS);
            match FastLength(lens, r, from)
            case Some(i) => DecodeLength(lens, clean, pos, from) == Some(i)
            case None => DecodeLength(lens, clean, pos, from) == DecodeLength(lens, clean, pos, DECBITS)
    decreases DECBITS - from
  {
    hide Peek, Last, Pow2;
    if from < DECBITS {
      PeekPrefix(clean, pos, from + 1, DECBITS - 1 - from);
      FastLengthAgrees(lens, clean, pos, from + 1);
    }
  }

  /** The symbol whose codeword of `i + 1` bits starts the data. */
  ghost function SymbolAt(lens: seq<nat>, vals: seq<byte>, clean: seq<byte>, pos: nat, i: nat): byte
    requires i < |lens|
  {
    var k := SymbolsBelow(lens, i) + Peek(clean, pos, i + 1) - First(lens, i);
    if 0 <= k < |vals| then vals[k] else 0
  }

  lemma DecodeIs(lens: seq<nat>, vals: seq<byte>, clean: seq<byte>, pos: nat, i: nat)
    requires ValidCode(lens, vals) && DecodeLength(lens, clean, pos, 0) == Some(i)
    ensures i < 16 && CodewordAt(lens, clean, pos, i)
    ensures 0 <= SymbolsBelow(lens, i) + Peek(clean, pos, i + 1) - First(lens, i) < SymbolsBelow(lens, 16)
    ensures var symbol := SymbolAt(lens, vals, clean, pos, i);
            Decode(lens, vals, clean, pos)
            == Coefficient(symbol / 16, Extend(Peek(clean, pos + i + 1, symbol % 16), symbol % 16), i + 1 + symbol % 16)
  {
    hide Peek, First, Extend;
    DecodeLengthFrom(lens, clean, pos, 0, i);
    SymbolInRange(lens, i, Peek(clean, pos, i + 1) - First(lens, i));
  }

  /** What the table entry `e` says when the data starts with a codeword of the given
      length for `symbol`: nothing, the size only, or the value as well. */
  ghost predicate EntryTells(e: int, length: Option<nat>, symbol: byte, clean: seq<byte>, pos: nat) {
    match length
    case None => e == 0
    case Some(i) =>
      var size := symbol % 16;
      if i >= DECBITS then e == 0
      else if size + i < DECBITS
      then e == Pack(Extend(Peek(clean, pos + i + 1, size), size), symbol / 16, 1, DECBITS - (i + 1 + size))
      else e == Pack(size, symbol / 16, 0, DECBITS - (i + 1))
  }

  ghost function FirstSymbol(lens: seq<nat>, vals: seq<byte>, clean: seq<byte>, pos: nat): byte {
    match DecodeLength(lens, clean, pos, 0)
    case None => 0
    case Some(i) => if i < |lens| then SymbolAt(lens, vals, clean, pos, i) else 0
  }

  /** The table entry for the next ten bits, read against the data. */
  lemma FastEntryAgrees(lens: seq<nat>, vals: seq<byte>, clean: seq<byte>, pos: nat)
    requires ValidCode(lens, vals)
    ensures EntryTells(FastEntry(lens, vals, Peek(clean, pos, DECBITS)), DecodeLength(lens, clean, pos, 0),
                       FirstSymbol(lens, vals, clean, pos), clean, pos)
  {
    hide Peek, First, Extend, SymbolsBelow, Pow2, Pack, DecodeLength, FastLength, Last, SymbolAt;
    match DecodeLength(lens, clean, pos, 0)
    case None =>
      DecodeNoneFast(lens, clean, pos);
    case Some(i) =>
      DecodeIs(lens, vals, clean, pos, i);
      DecodeFast(lens, clean, pos, i);
      if i < DECBITS {
        PeekPrefix(clean, pos, i + 1, DECBITS - 1 - i);
        var size := SymbolAt(lens, vals, clean, pos, i) % 16;
        if size + i < DECBITS {
          PeekPrefix(clean, pos + i + 1, size, DECBITS - 1 - size - i);
        }
      }
  }

  lemma DecodeNoneFast(lens: seq<nat>, clean: seq<byte>, pos: nat)
    requires |lens| == 16 && DecodeLength(lens, clean, pos, 0) == None
    ensures FastLength(lens, Peek(clean, pos, DECBITS), 0) == None
  {
    hide Peek, Last;
    FastLengthAgrees(lens, clean, pos, 0);
  }

  lemma DecodeFast(lens: seq<nat>, clean: seq<byte>, pos: nat, i: nat)
    requires |lens| == 16 && DecodeLength(lens, clean, pos, 0) == Some(i)
    ensures FastLength(lens, Peek(clean, pos, DECBITS), 0) == if i < DECBITS then Some(i) else None
  {
    hide Peek, Last;
    FastLengthAgrees(lens, clean, pos, 0);
    if FastLength(lens, Peek(clean, pos, DECBITS), 0) == None {
      LaterLength(lens, clean, pos, DECBITS, i);
    }
  }

  lemma {:induction false} LaterLength(lens: seq<nat>, clean: seq<byte>, pos: nat, from: nat, i: nat)
    requires from <= |lens| && DecodeLength(lens, clean, pos, from) == Some(i)
    ensures from <= i
    decreases |lens| - from
  {
    hide Peek, Last;
    if Peek(clean, pos, from + 1) >= Last(lens, from) { LaterLength(lens, clean, pos, from + 1, i); }
  }

  /** Taking an entry apart: the fields do not overlap, and shifting a negative value
      right by 16 brings it back. */
  lemma Unpack(x: int, run: nat, known: nat, backup: nat)
    requires run < 16 && known < 2 && backup <= DECBITS
    ensures var e := Pack(x, run, known, backup);
            && e / 0x80 % 2 == known && e % 0x80 == backup && e / 0x100 % 16 == run && e / 0x10000 == x
  {
    var e := Pack(x, run, known, backup);
    DivUnique(e, 0x200 * x + 2 * run + known, backup, 0x80);
    DivUnique(0x200 * x + 2 * run + known, 0x100 * x + run, known, 2);
    DivUnique(e, 0x100 * x + run, 0x80 * known + backup, 0x100);
    DivUnique(0x100 * x + run, 0x10 * x, run, 0x10);
    DivUnique(e, x, 0x100 * run + 0x80 * known + backup, 0x10000);
  }

  lemma FirstIs(lens: seq<nat>, i: nat)
    requires 0 < i <= |lens|
    ensures First(lens, i) == 2 * Last(lens, i - 1)
  {}

  /** If no code of at most ten bits fits, the slow path can start at eleven. */
  lemma SlowAgrees(lens: seq<nat>, clean: seq<byte>, pos: nat)
    requires |lens| == 16 && match DecodeLength(lens, clean, pos, 0) { case None => true case Some(i) => i >= DECBITS }
    ensures DecodeLength(lens, clean, pos, 0) == DecodeLength(lens, clean, pos, DECBITS)
  {
    hide Peek, Last, DecodeLength;
    FastLengthAgrees(lens, clean, pos, 0);
    match DecodeLength(lens, clean, pos, 0)
    case None => DecodeNoneFast(lens, clean, pos);
    case Some(i) => DecodeFast(lens, clean, pos, i);
  }

  lemma UnpackEntry(e: int, i: nat, symbol: byte, value: int)
    requires i < DECBITS
    ensures symbol % 16 + i < DECBITS && e == Pack(value, symbol / 16, 1, DECBITS - (i + 1 + symbol % 16)) ==>
              && e / 0x80 % 2 == 1 && e % 0x80 == DECBITS - (i + 1 + symbol % 16)
              && e / 0x100 % 16 == symbol / 16 && e / 0x10000 == value
    ensures symbol % 16 + i >= DECBITS && e == Pack(symbol % 16, symbol / 16, 0, DECBITS - (i + 1)) ==>
              && e != 0 && e / 0x80 % 2 == 0 && e % 0x80 == DECBITS - (i + 1)
              && e / 0x100 % 16 == symbol / 16 && e / 0x10000 == symbol % 16
  {
    if symbol % 16 + i < DECBITS {
      Unpack(value, symbol / 16, 1, DECBITS - (i + 1 + symbol % 16));
    } else {
      Unpack(symbol % 16, symbol / 16, 0, DECBITS - (i + 1));
    }
  }

  /** The outcome of decoding at `pos` is `d`. */
  ghost predicate Outcome(d: Decoded, input: Reader, pos: nat, run: nat, value: int, ok: bool)
    reads input
  {
    match d
    case BadCode => !ok && input.marker == -1
    case Coefficient(r, v, n) => ok && run == r && value == v && input.Valid() && input.pos == pos + n
  }

  /** `DEC_REC`: one coefficient.  `ok` is false when the data starts with no codeword. */
  method DecRec(input: Reader, hu: HuffTable, ghost lens: seq<nat>, ghost vals: seq<byte>)
    returns (run: nat, value: int, ok: bool)
    requires input.Valid() && hu.Built(lens, vals)
    modifies input
    ensures Outcome(Decode(lens, vals, input.clean, old(input.pos)), input, old(input.pos), run, value, ok)
  {
    hide FastEntry, Peek, First, Extend, DecodeLength, SymbolsBelow, Pack, Decode, SymbolAt, Bit, Pow2;
    ghost var pos, clean := input.pos, input.clean;
    FastEntryAgrees(lens, vals, clean, pos);
    var r := input.GetBits(DECBITS);
    PeekBound(clean, pos, DECBITS);
    SmallPowers();
    var i := hu.llvals[r];
    ghost var length, symbol := DecodeLength(lens, clean, pos, 0), FirstSymbol(lens, vals, clean, pos);
    if length.Some? {
      DecodeIs(lens, vals, clean, pos, length.value);
      if length.value < DECBITS {
        UnpackEntry(i, length.value, symbol, Extend(Peek(clean, pos + length.value + 1, symbol % 16), symbol % 16));
      }
    }
    if i / 0x80 % 2 == 1 {
      input.UngetBits(i % 0x80);
      run, value, ok := i / 0x100 % 16, i / 0x10000, true;
    } else {
      run, value, ok := DecRec2(input, hu, r, i, lens, vals, pos);
    }
  }

  /** `dec_rec2`: the length is known from the table entry `i`, or the code is longer
      than ten bits and is lengthened bit by bit from `c`. */
  method DecRec2(input: Reader, hu: HuffTable, c0: nat, i0: int, ghost lens: seq<nat>, ghost vals: seq<byte>,
                 ghost pos: nat)
    returns (run: nat, value: int, ok: bool)
    requires input.Valid() && hu.Built(lens, vals) && input.pos == pos + DECBITS && input.left + DECBITS <= 32
    requires c0 == Peek(input.clean, pos, DECBITS) && i0 / 0x80 % 2 == 0
    requires EntryTells(i0, DecodeLength(lens, input.clean, pos, 0), FirstSymbol(lens, vals, input.clean, pos),
                        input.clean, pos)
    modifies input
    ensures Outcome(Decode(lens, vals, input.clean, pos), input, pos, run, value, ok)
  {
    hide FastEntry, Peek, First, Extend, DecodeLength, SymbolsBelow, Pack, Bit, Pow2;
    ghost var clean := input.clean;
    ghost var length, symbol := DecodeLength(lens, clean, pos, 0), FirstSymbol(lens, vals, clean, pos);
    var size;
    if length.Some? {
      DecodeIs(lens, vals, clean, pos, length.value);
      if length.value < DECBITS {
        UnpackEntry(i0, length.value, symbol, Extend(Peek(clean, pos + length.value + 1, symbol % 16), symbol % 16));
      }
    }
    if i0 != 0 {
      input.UngetBits(i0 % 0x80);
      run := i0 / 0x100 % 16;
      size := i0 / 0x10000;
    } else {
      run, size, ok := LongSymbol(input, hu, c0, lens, vals, pos);
      if !ok {
        input.marker := -1;
        value := 0;
        return;
      }
    }
    ok := true;
    value := Receive(input, size);
  }

  /** The slow path: the symbol of a code of more than ten bits. */
  method LongSymbol(input: Reader, hu: HuffTable, c0: nat, ghost lens: seq<nat>, ghost vals: seq<byte>, ghost pos: nat)
    returns (run: nat, size: nat, ok: bool)
    requires input.Valid() && hu.Built(lens, vals) && input.pos == pos + DECBITS
    requires c0 == Peek(input.clean, pos, DECBITS)
    requires match DecodeLength(lens, input.clean, pos, 0) case None => true case Some(i) => i >= DECBITS
    modifies input
    ensures ok <==> DecodeLength(lens, input.clean, pos, 0).Some?
    ensures ok ==> var symbol := FirstSymbol(lens, vals, input.clean, pos);
                   && run == symbol / 16 && size == symbol % 16
                   && input.Valid() && input.pos == pos + DecodeLength(lens, input.clean, pos, 0).value + 1
  {
    hide Peek, First, DecodeLength, SymbolsBelow, Bit, Pow2;
    ghost var clean := input.clean;
    SlowAgrees(lens, clean, pos);
    var i, c := LongCode(input, hu, c0, lens, vals, pos);
    ok := i < 16;
    run, size := 0, 0;
    if ok {
      DecodeIs(lens, vals, clean, pos, i);
      FirstIs(lens, i);
      var found := hu.vals[hu.valptr[i] + c - hu.maxcode[i - 1] * 2];
      run := found / 16;
      size := found % 16;
    }
  }

  /** The magnitude bits of one coefficient. */
  method Receive(input: Reader, size: nat) returns (value: int)
    requires input.Valid() && size <= 15
    modifies input
    ensures input.Valid() && input.pos == old(input.pos) + size
    ensures value == Extend(Peek(input.clean, old(input.pos), size), size)
  {
    hide Peek, Bit, Pow2;
    if size == 0 {
      return 0;
    }
    var v := input.GetBits(size);
    value := v;
    if v < Pow2(size - 1) {
      value := v - Pow2(size) + 1;
    }
  }

  /** The loop of the slow path; `i` is 16 if no code fits. */
  method LongCode(input: Reader, hu: HuffTable, c0: nat, ghost lens: seq<nat>, ghost vals: seq<byte>, ghost pos: nat)
    returns (i: nat, c: nat)
    requires input.Valid() && hu.Built(lens, vals) && input.pos == pos + DECBITS
    requires c0 == Peek(input.clean, pos, DECBITS)
    modifies input
    ensures DecodeLength(lens, input.clean, pos, DECBITS) == (if i < 16 then Some(i) else None)
    ensures i < 16 ==> input.Valid() && DECBITS <= i && c == Peek(input.clean, pos, i + 1) && input.pos == pos + i + 1
  {
    hide First, SymbolsBelow, Bit, Pow2, FastEntry;
    i, c := DECBITS, c0;
    ghost var clean := input.clean;
    var b := input.GetBits(1);
    PeekOne(clean, pos + DECBITS);
    c := 2 * c + b;
    while c >= hu.maxcode[i]
      invariant input.Valid() && DECBITS <= i <= 16 && input.pos == pos + i + 1 && c == Peek(clean, pos, i + 1)
      invariant DecodeLength(lens, clean, pos, DECBITS) == DecodeLength(lens, clean, pos, i)
      decreases 16 - i
    {
      if i == 16 {
        PeekBound(clean, pos, 17);
        SmallPowers();
      }
      i := i + 1;
      b := input.GetBits(1);
      PeekOne(clean, pos + i);
      c := 2 * c + b;
    }
  }

  lemma PeekOne(clean: seq<byte>, pos: nat)
    ensures Peek(clean, pos, 1) == Bit(clean, pos)
  {
    assert Peek(clean, pos, 0) == 0;
  }
}
