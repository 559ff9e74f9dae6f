/** The bit reader of the JPEG decoder: entropy-coded bytes with stuffed zero bytes, a
    32-bit shift register, and zero bits once a marker has been met. */
module JpegBits {
  import opened PowersOfTwo

  type byte = b: int | 0 <= b < 256

  const WORD: nat := 0x1_0000_0000

  /** Bit `n` of a byte string, most significant bits first; zero past its end. */
  function Bit(clean: seq<byte>, n: nat): nat {
    if n / 8 < |clean| then clean[n / 8] / Pow2(7 - n % 8) % 2 else 0
  }

  /** The number formed by the `n` bits from position `pos`. */
  function Peek(clean: seq<byte>, pos: nat, n: nat): nat {
    if n == 0 then 0 else 2 * Peek(clean, pos, n - 1) + Bit(clean, pos + n - 1)
  }

  /** The data bytes before the first marker, with stuffing removed: 0xFF 0x00 stands for
      0xFF, and 0xFF followed by anything else is a marker. */
  function Clean(data: seq<byte>, p: nat): seq<byte>
    requires p <= |data|
    decreases |data| - p
  {
    if p == |data| then []
    else if data[p] != 0xFF then [data[p]] + Clean(data, p + 1)
    else if p + 1 == |data| || data[p + 1] != 0 then []
    else [0xFF] + Clean(data, p + 2)
  }

  /** Scanning from `p` meets a marker before the data ends. */
  predicate MarkerAhead(data: seq<byte>, p: nat)
    decreases |data| - p
  {
    p < |data| &&
    if data[p] != 0xFF then MarkerAhead(data, p + 1)
    else p + 1 < |data| && (data[p + 1] != 0 || MarkerAhead(data, p + 2))
  }

  // ----- numbers read from the stream

  lemma {:induction false} PeekBound(clean: seq<byte>, pos: nat, n: nat)
    ensures Peek(clean, pos, n) < Pow2(n)
  {
    hide Bit;
    if n > 0 {
      PeekBound(clean, pos, n - 1);
      BitBound(clean, pos + n - 1);
    }
  }

  lemma BitBound(clean: seq<byte>, n: nat)
    ensures Bit(clean, n) < 2
  {}

  /** Reading `a + b` bits at once or in two goes gives the same number. */
  lemma {:induction false} PeekSplit(clean: seq<byte>, pos: nat, a: nat, b: nat)
    ensures Peek(clean, pos, a + b) == Peek(clean, pos, a) * Pow2(b) + Peek(clean, pos + a, b)
  {
    hide Bit;
    if b == 0 {
      assert Pow2(0) == 1;
    } else {
      PeekSplit(clean, pos, a, b - 1);
      PeekOne(clean, pos, a + b);
      PeekOne(clean, pos + a, b);
      hide Pow2, Peek;
      PowerStep(b);
      Regroup(Peek(clean, pos, a), Pow2(b - 1));
    }
  }

  lemma PeekOne(clean: seq<byte>, pos: nat, n: nat)
    requires n > 0
    ensures Peek(clean, pos, n) == 2 * Peek(clean, pos, n - 1) + Bit(clean, pos + n - 1)
  {
    hide Bit;
  }

  lemma Regroup(x: nat, m: nat)
    ensures 2 * (x * m) == x * (2 * m)
  {}

  /** The first `a` of `a + b` bits. */
  lemma PeekPrefix(clean: seq<byte>, pos: nat, a: nat, b: nat)
    ensures Peek(clean, pos, a + b) / Pow2(b) == Peek(clean, pos, a)
    ensures Peek(clean, pos, a + b) % Pow2(b) == Peek(clean, pos + a, b)
  {
    PeekSplit(clean, pos, a, b);
    PeekBound(clean, pos + a, b);
    DivUnique(Peek(clean, pos, a + b), Peek(clean, pos, a), Peek(clean, pos + a, b), Pow2(b));
  }

  lemma BitInByte(clean: seq<byte>, c: nat, n: nat)
    requires c < |clean| && 1 <= n <= 8
    ensures Bit(clean, 8 * c + n - 1) == clean[c] / Pow2(8 - n) % 2
  {
    hide Pow2;
    assert (8 * c + n - 1) / 8 == c && (8 * c + n - 1) % 8 == n - 1;
  }

  /** The first `n` bits of a byte are the byte with its low bits dropped. */
  lemma {:induction false} PeekInByte(clean: seq<byte>, c: nat, n: nat)
    requires c < |clean| && n <= 8
    ensures Peek(clean, 8 * c, n) == clean[c] / Pow2(8 - n)
  {
    var b := clean[c];
    if n == 0 {
      SmallPowers();
      DivUnique(b, 0, b, Pow2(8));
    } else {
      PeekInByte(clean, c, n - 1);
      BitInByte(clean, c, n);
      PeekOne(clean, 8 * c, n);
      PowerStep(9 - n);
      hide Bit, Peek, Pow2;
      DivTwice(b, Pow2(8 - n));
    }
  }

  /** The eight bits of one byte make up that byte. */
  lemma PeekByte(clean: seq<byte>, c: nat)
    requires c < |clean|
    ensures Peek(clean, 8 * c, 8) == clean[c]
  {
    PeekInByte(clean, c, 8);
    SmallPowers();
  }

  lemma {:induction false} PeekPastEnd(clean: seq<byte>, pos: nat, n: nat)
    requires pos >= 8 * |clean|
    ensures Peek(clean, pos, n) == 0
  {
    if n > 0 { PeekPastEnd(clean, pos, n - 1); }
  }

  // ----- the shift register

  /** Shifting `k` more bits of value `v` into the register. */
  lemma ShiftIn(x: nat, v: nat, k: nat)
    requires v < Pow2(k)
    ensures (x % WORD * Pow2(k) + v) % WORD == (x * Pow2(k) + v) % WORD
  {
    var q, m := x / WORD, Pow2(k);
    assert x * m + v == (q * m) * WORD + (x % WORD * m + v);
    DivShift(q * m, x % WORD * m + v, WORD);
  }

  /** The register holds all bits read so far, modulo 2^32: its low `left` bits are the
      ones not yet consumed, and the ones above can be given back. */
  lemma RegisterBits(clean: seq<byte>, pos: nat, left: nat, n: nat)
    requires n <= left <= 32
    ensures Peek(clean, 0, pos + left) % WORD / Pow2(left - n) % Pow2(n) == Peek(clean, pos, n)
  {
    hide Bit, Peek, Pow2;
    var low, high := left - n, 32 - left;
    SmallPowers();
    // all bits read = older * 2^left + (the next n) * 2^low + the rest
    PeekSplit(clean, 0, pos, left);
    PeekSplit(clean, pos, n, low);
    PeekBound(clean, pos, n);
    PeekBound(clean, pos + n, low);
    Pow2Add(n, low);
    Pow2Add(high, left);
    SplitRegister(Peek(clean, 0, pos), Peek(clean, pos, n), Peek(clean, pos + n, low), Pow2(high), Pow2(n), Pow2(low));
  }

  lemma SplitRegister(x: nat, mid: nat, rest: nat, h: nat, m: nat, l: nat)
    requires h > 0 && mid < m && rest < l && h * (m * l) == WORD
    ensures (x * (m * l) + (mid * l + rest)) % WORD / l % m == mid
  {
    var kept, v := x % h, mid * l + rest;
    Compose(mid, rest, m, l);
    Compose(kept, v, h, m * l);
    DropHigh(x, v, h, m * l);
    Reassociate(kept, mid, rest, m, l);
    DivUnique(kept * (m * l) + v, kept * m + mid, rest, l);
    DivUnique(kept * m + mid, kept, mid, m);
  }

  lemma Compose(a: nat, b: nat, m: nat, l: nat)
    requires a < m && b < l
    ensures a * l + b < m * l
  {
    var rest := m - a - 1;
    Distribute(m, a, l);
    Distribute(m - a, 1, l);
    OrderTimes(rest, l);
  }

  lemma DropHigh(x: nat, v: nat, h: nat, m: nat)
    requires h > 0 && v < m && h * m == WORD
    ensures (x * m + v) % WORD == x % h * m + v
  {
    Compose(x % h, v, h, m);
    Reassociate(x / h, x % h, v, h, m);
    assert x == x / h * h + x % h;
    DivUnique(x * m + v, x / h, x % h * m + v, WORD);
  }

  lemma Reassociate(a: nat, b: nat, c: nat, m: nat, l: nat)
    ensures (a * m + b) * l + c == a * (m * l) + (b * l + c)
  {}

  /** `struct in`.  The ghost field `pos` counts the bits consumed, `read` the bits
      shifted in; `clean` is the data they come from. */
  class Reader {
    const data: seq<byte>
    var p: nat
    var left: nat
    var bits: nat
    var marker: int
    ghost const clean: seq<byte>
    ghost var pos: nat

    ghost predicate Valid()
      reads this
    {
      && left <= 32 && p <= |data|
      && bits == Peek(clean, 0, pos + left) % WORD
      && (marker == 0 ==>
            && (pos + left) % 8 == 0 && (pos + left) / 8 <= |clean|
            && clean[(pos + left) / 8..] == Clean(data, p) && MarkerAhead(data, p))
      && (marker != 0 ==> pos + left >= 8 * |clean|)
    }

    /** `setinput` */
    constructor (data: seq<byte>)
      requires MarkerAhead(data, 0)
      ensures Valid() && pos == 0 && this.data == data && clean == Clean(data, 0)
    {
      this.data, p, left, bits, marker := data, 0, 0, 0, 0;
      clean, pos := Clean(data, 0), 0;
    }

    /** `fillbits`: afterwards at least 16 bits are at hand. */
    method FillBits()
      requires Valid()
      modifies this`p, this`left, this`bits, this`marker
      ensures Valid() && left >= 16
    {
      if marker != 0 {
        if left <= 16 {
          PadWithZeros();
        }
        return;
      }
      while left <= 24
        invariant Valid() && marker == 0
        decreases |data| - p
      {
        if data[p] == 0xFF && data[p + 1] != 0 {
          marker := data[p + 1];
          p := p + 2;
          if left <= 16 {
            PadWithZeros();
          }
          return;
        }
        ReadByte();
      }
    }

    /** One data byte, with its stuffed zero byte if it is 0xFF. */
    method ReadByte()
      requires Valid() && marker == 0 && left <= 24
      requires data[p] != 0xFF || data[p + 1] == 0
      modifies this`p, this`left, this`bits
      ensures Valid() && p > old(p) && left == old(left) + 8
    {
      hide Bit, Peek, Pow2;
      ghost var c := (pos + left) / 8;
      assert clean[c..][0] == data[p] && clean[c + 1..] == clean[c..][1..];
      var b := data[p];
      p := if b == 0xFF then p + 2 else p + 1;
      PeekByte(clean, c);
      PeekSplit(clean, 0, pos + left, 8);
      SmallPowers();
      ShiftIn(Peek(clean, 0, pos + left), b, 8);
      bits := (bits * 256 + b) % WORD;
      left := left + 8;
    }

    method PadWithZeros()
      requires Valid() && left <= 16 && marker != 0
      modifies this`left, this`bits
      ensures Valid() && left == old(left) + 16
    {
      hide Bit, Peek, Pow2, Clean, MarkerAhead;
      PeekSplit(clean, 0, pos + left, 16);
      PeekPastEnd(clean, pos + left, 16);
      SmallPowers();
      ShiftIn(Peek(clean, 0, pos + left), 0, 16);
      bits := bits * 0x10000 % WORD;
      left := left + 16;
    }

    /** `GETBITS`: the next `n` bits of the data, and zero bits after its end. */
    method GetBits(n: nat) returns (v: nat)
      requires Valid() && n <= 15
      modifies this
      ensures Valid() && pos == old(pos) + n && v == Peek(clean, old(pos), n)
      ensures left + n <= 32
    {
      hide Bit, Peek, Clean, MarkerAhead;
      if left < n {
        FillBits();
      }
      RegisterBits(clean, pos, left, n);
      left := left - n;
      v := bits / Pow2(left) % Pow2(n);
      pos := pos + n;
    }

    /** `UNGETBITS`: bits still in the register are given back. */
    method UngetBits(n: nat)
      requires Valid() && left + n <= 32 && n <= pos
      modifies this`left, this`pos
      ensures Valid() && pos == old(pos) - n
    {
      left := left + n;
      pos := pos - n;
    }
  }
}
