/** A root block in memory, and the operations on it.  All state is in the memory words;
    a handle holds only where they are. */
module ImdMemory {
  import opened PowersOfTwo
  import opened ImdRoot

  const ROOT_PTR_MAGIC: word := 0xc0389481
  const ENTRY_MAGIC: word := 0x3fc76b7e

  // ----- memory images

  /** The address of an entry of the root block at `r`. */
  function EntryAddr(r: int, i: int): int { r + 20 + 16 * i }

  ghost predicate EntryImage(m: seq<word>, at: nat, e: Entry) {
    at + 4 <= |m| && m[at] == ENTRY_MAGIC && m[at + 1] == Word(e.start) && m[at + 2] == e.size && m[at + 3] == e.id
  }

  ghost predicate EntriesImage(m: seq<word>, r: nat, entries: seq<Entry>) {
    forall k: nat | k < |entries| :: EntryImage(m, r / 4 + 5 + 4 * k, entries[k])
  }

  /** The block at `r` has room for its entries below the root pointer at its limit. */
  predicate Fits(m: seq<word>, limit: nat, r: nat, maxEntries: nat) {
    r % 4 == 0 && limit % 4 == 0 && limit / 4 <= |m| && 0 < r && r + 28 + 16 * maxEntries <= limit
  }

  ghost predicate HeadImage(m: seq<word>, limit: nat, r: nat, root: Root)
    requires Fits(m, limit, r, root.maxEntries)
  {
    && m[r / 4] == root.maxEntries && m[r / 4 + 1] == |root.entries| && m[r / 4 + 2] == root.flags
    && m[r / 4 + 3] == root.align && m[r / 4 + 4] == root.maxOffset
    && m[limit / 4 - 2] == ROOT_PTR_MAGIC && m[limit / 4 - 1] == Word(r - (limit - 8))
  }

  /** The words from `r` to `limit` hold this root block. */
  ghost predicate Image(m: seq<word>, limit: nat, r: nat, root: Root) {
    && Fits(m, limit, r, root.maxEntries) && 1 <= |root.entries| <= root.maxEntries
    && HeadImage(m, limit, r, root) && EntriesImage(m, r, root.entries)
  }

  predicate SameOutside(m: seq<word>, n: seq<word>, lo: nat, hi: nat) {
    |m| == |n| && forall i | 0 <= i < |m| && !(lo <= i < hi) :: m[i] == n[i]
  }

  predicate SameInside(m: seq<word>, n: seq<word>, lo: nat, hi: nat) {
    |m| == |n| && forall i | lo <= i < hi && i < |m| :: m[i] == n[i]
  }

  /** The image depends on no other words. */
  lemma ImageFrame(m: seq<word>, n: seq<word>, limit: nat, r: nat, root: Root)
    requires Image(m, limit, r, root) && SameInside(m, n, r / 4, limit / 4)
    ensures Image(n, limit, r, root)
  {
    assert forall k: nat | k < |root.entries| :: EntryImage(m, r / 4 + 5 + 4 * k, root.entries[k]);
  }

  /** One more entry, written in the next free slot. */
  lemma ImageAppend(m: seq<word>, n: seq<word>, limit: nat, r: nat, root: Root, e: Entry)
    requires Image(m, limit, r, root) && |root.entries| < root.maxEntries
    requires var at := r / 4 + 5 + 4 * |root.entries|;
             n == m[r / 4 + 1 := |root.entries| + 1]
                   [at := ENTRY_MAGIC][at + 1 := Word(e.start)][at + 2 := e.size][at + 3 := e.id]
    ensures Image(n, limit, r, Append(root, e))
    ensures SameOutside(m, n, r / 4, limit / 4)
  {
    var after := Append(root, e);
    forall k: nat | k < |after.entries| ensures EntryImage(n, r / 4 + 5 + 4 * k, after.entries[k]) {
      if k < |root.entries| { assert EntryImage(m, r / 4 + 5 + 4 * k, root.entries[k]); }
    }
  }

  lemma ImageDrop(m: seq<word>, n: seq<word>, limit: nat, r: nat, root: Root)
    requires Image(m, limit, r, root) && |root.entries| > 1
    requires n == m[r / 4 + 1 := |root.entries| - 1]
    ensures Image(n, limit, r, DropLast(root)) && SameOutside(m, n, r / 4, limit / 4)
  {
    forall k: nat | k < |root.entries| - 1 ensures EntryImage(n, r / 4 + 5 + 4 * k, root.entries[k]) {
      assert EntryImage(m, r / 4 + 5 + 4 * k, root.entries[k]);
    }
  }

  /** A change of the flags or of the limit. */
  lemma ImageHead(m: seq<word>, n: seq<word>, limit: nat, r: nat, root: Root, flags: word, maxOffset: word)
    requires Image(m, limit, r, root) && n == m[r / 4 + 2 := flags][r / 4 + 4 := maxOffset]
    ensures Image(n, limit, r, root.(flags := flags, maxOffset := maxOffset)) && SameOutside(m, n, r / 4, limit / 4)
  {
    forall k: nat | k < |root.entries| ensures EntryImage(n, r / 4 + 5 + 4 * k, root.entries[k]) {
      assert EntryImage(m, r / 4 + 5 + 4 * k, root.entries[k]);
    }
  }

  /** A block with one entry. */
  lemma ImageFresh(n: seq<word>, limit: nat, r: nat, root: Root)
    requires Fits(n, limit, r, root.maxEntries) && 1 == |root.entries| <= root.maxEntries
    requires HeadImage(n, limit, r, root) && EntryImage(n, r / 4 + 5, root.entries[0])
    ensures Image(n, limit, r, root)
  {}

  lemma WordSigned(v: int)
    requires -HALF <= v < HALF
    ensures Signed(Word(v)) == v
  {}

  // ----- recovery

  /** What recovery asks of one entry, in 32-bit addresses. */
  predicate EntryOk(limit: word, r: word, lowLimit: word, e: Entry) {
    var start := Word(r + e.start);
    lowLimit <= start < limit && Word(start + e.size) <= limit
  }

  /** An entry that recovery accepts lies between the two limits, or its end wraps around the
      word range and comes out below the upper one. */
  lemma EntryOkExact(limit: word, r: word, lowLimit: word, e: Entry)
    ensures var start := Word(r + e.start);
            EntryOk(limit, r, lowLimit, e) <==>
              && lowLimit <= start < limit
              && (start + e.size <= limit || WORD <= start + e.size <= WORD + limit)
  {}

  /** The wrap is real: an entry of almost the whole word range is accepted near the top of a
      block, although it covers everything above the limit. */
  lemma WrappingEntryAccepted()
    ensures EntryOk(0x2000, 0x1000, 0, Entry(0, 0xffff_ffff, 0))
  {
    InWord(0x1000);
  }

  /** What recovery asks of a root block. */
  predicate Recoverable(limit: word, r: word, root: Root) {
    && AlignUp(Word(EntryAddr(r, root.maxEntries)), LIMIT_ALIGN) == limit
    && |root.entries| <= root.maxEntries && PowerOrZero(root.align)
    && forall k | 0 <= k < |root.entries| :: EntryOk(limit, r, LowLimit(r, root), root.entries[k])
  }

  function LowLimit(r: word, root: Root): word {
    var low := Word(r + root.maxOffset);
    if low == r then 0 else low
  }

  /** `(x & (x - 1)) == 0` */
  predicate PowerOrZero(x: word) {
    x <= 1 || (x % 2 == 0 && PowerOrZero(x / 2))
  }

  lemma {:induction false} PowerIsPower(x: word)
    requires IsPower(x)
    ensures PowerOrZero(x)
    decreases x
  {
    var p: nat :| x == Pow2(p);
    if p > 0 {
      assert x == 2 * Pow2(p - 1);
      PowerIsPower(x / 2);
    }
  }

  /** A block with its layout intact is recovered exactly when its limit is a multiple of
      4096 and neither its entries nor its own limit reach below address zero. */
  lemma RecoverExact(limit: word, r: word, root: Root)
    requires 64 <= limit - r <= LIMIT_ALIGN && Packed(root, limit - r) && root.maxEntries == NumEntries(limit - r)
             && 0 < r
    ensures Recoverable(limit, r, root) <==>
              limit % LIMIT_ALIGN == 0 && r + Last(root).start >= 0 && (root.maxOffset != 0 ==> r - Budget(root) >= 0)
  {
    hide PowerOrZero, IsPower, Chained, AlignUp, EntryOk;
    PowerIsPower(root.align);
    EndOfBlock(limit, r);
    var n := |root.entries|;
    forall k | 0 <= k < n
      ensures r + Last(root).start >= 0 && (root.maxOffset != 0 ==> r - Budget(root) >= 0) ==>
                EntryOk(limit, r, LowLimit(r, root), root.entries[k])
    {
      EntryRecovers(limit, r, root, k);
    }
    EntryRecovers(limit, r, root, 0);
    EntryRecovers(limit, r, root, n - 1);
  }

  /** Recovery of entry `k`, and what it says of the two ends of the chain. */
  lemma EntryRecovers(limit: word, r: word, root: Root, k: nat)
    requires 64 <= limit - r <= LIMIT_ALIGN && Packed(root, limit - r) && 0 < r && k < |root.entries|
    ensures r + Last(root).start >= 0 && (root.maxOffset != 0 ==> r - Budget(root) >= 0) ==>
              EntryOk(limit, r, LowLimit(r, root), root.entries[k])
    ensures k == |root.entries| - 1 && EntryOk(limit, r, LowLimit(r, root), root.entries[k]) ==>
              r + Last(root).start >= 0
    ensures k == 0 && EntryOk(limit, r, LowLimit(r, root), root.entries[k]) ==>
              (root.maxOffset != 0 ==> r - Budget(root) >= 0)
  {
    hide IsPower, Chained;
    if k > 0 { EntriesApart(root, limit - r, 0, k); }
    LowLimitIs(r, root);
    hide LowLimit;
    if k == 0 && |root.entries| > 1 { EntriesApart(root, limit - r, 0, |root.entries| - 1); }
  }

  lemma LowLimitIs(r: word, root: Root)
    requires 0 < r
    ensures root.maxOffset == 0 ==> LowLimit(r, root) == 0
    ensures root.maxOffset != 0 && r - Budget(root) >= 0 ==> LowLimit(r, root) == r - Budget(root)
    ensures root.maxOffset != 0 && r - Budget(root) < 0 ==> LowLimit(r, root) > r
  {}

  /** The slots end less than a page below the limit. */
  lemma EndOfBlock(limit: word, r: word)
    requires 64 <= limit - r <= LIMIT_ALIGN && 0 < r
    ensures AlignUp(Word(EntryAddr(r, NumEntries(limit - r))), LIMIT_ALIGN) == limit <==> limit % LIMIT_ALIGN == 0
  {
    var end := EntryAddr(r, NumEntries(limit - r));
    NumEntriesTight(limit - r);
    InWord(end);
    hide NumEntries, AlignUp, RoundTo, Word;
    AlignUpIs(end, LIMIT_ALIGN);
    RoundToProperties(end, LIMIT_ALIGN);
    if limit % LIMIT_ALIGN == 0 {
      RoundToLeast(end, LIMIT_ALIGN, limit);
      if RoundTo(end, LIMIT_ALIGN) < limit { NextMultiple(RoundTo(end, LIMIT_ALIGN), limit, LIMIT_ALIGN); }
      NextMultiple(limit, WORD, LIMIT_ALIGN);
    }
  }

  lemma NumEntriesTight(size: word)
    requires 64 <= size <= LIMIT_ALIGN
    ensures size - 28 - 16 < 16 * NumEntries(size) <= size - 28
  {}

  // ----- the handle of one block

  /** Offsets are at most zero and fit in 32 bits; the alignment is positive. */
  predicate Ranged(root: Root) {
    root.align > 0 && forall k | 0 <= k < |root.entries| :: -HALF <= root.entries[k].start <= 0
  }

  lemma AddRanged(root: Root, id: word, size: word)
    requires Ranged(root) && root.entries != []
    ensures Add(root, id, size).Some? ==> Ranged(Add(root, id, size).value)
    ensures NewOffset(root, size).Some? ==> -HALF <= NewOffset(root, size).value <= 0
  {
    hide AlignUp, DataLeft;
  }

  /** Offsets are stored modulo 2^32. */
  lemma AddSigned(a: int, v: int)
    ensures Word(a + Signed(Word(v))) == Word(a + v)
  {}

  class Imdr {
    const mem: array<word>
    var limit: word
    /** The address of the root block; 0 if there is none. */
    var r: word
    /** What the root block says. */
    ghost var root: Root

    ghost predicate Valid()
      reads this, mem
    {
      r != 0 ==> Image(mem[..], limit, r, root) && Ranged(root)
    }

    /** `imdr_init`: the limit is rounded down to a page. */
    constructor (mem: array<word>, upperLimit: word)
      ensures this.mem == mem && limit == FloorTo(upperLimit, LIMIT_ALIGN) && r == 0
    {
      this.mem := mem;
      limit, r := FloorTo(upperLimit, LIMIT_ALIGN), 0;
    }

    /** `imdr_create_empty` */
    method CreateEmpty(rootSize: word, align: word) returns (ok: bool)
      requires IsPower(rootSize) && IsPower(align) && 64 <= rootSize
      requires limit != 0 && rootSize <= LIMIT_ALIGN && align <= rootSize ==>
                 limit % 4 == 0 && limit / 4 <= mem.Length && rootSize < limit
      modifies this`r, this`root, mem
      ensures ok <==> limit != 0 && rootSize <= LIMIT_ALIGN && align <= rootSize
      ensures ok ==> r == limit - rootSize && root == EmptyRoot(rootSize, align) && r != 0 && Valid()
      ensures ok ==> SameOutside(old(mem[..]), mem[..], r / 4, limit / 4)
      ensures !ok ==> unchanged(this) && unchanged(mem)
    {
      if limit == 0 || rootSize < 28 || rootSize > LIMIT_ALIGN || align > LIMIT_ALIGN || align > rootSize {
        return false;
      }
      PageMultiple(rootSize);
      NumEntriesFit(rootSize, align);
      hide EmptyRoot, NumEntries, IsPower;
      r := limit - rootSize;
      root := EmptyRoot(rootSize, align);
      WriteEmpty(rootSize, align);
      ImageFresh(mem[..], limit, r, root);
      ok := true;
    }

    method WriteEmpty(rootSize: word, align: word)
      requires Fits(mem[..], limit, r, NumEntries(rootSize)) && NumEntries(rootSize) > 0
      modifies mem
      ensures HeadImage(mem[..], limit, r, EmptyRoot(rootSize, align))
      ensures EntryImage(mem[..], r / 4 + 5, Entry(0, rootSize, ROOT_ID))
      ensures SameOutside(old(mem[..]), mem[..], r / 4, limit / 4)
    {
      hide NumEntries, EntryImage, EmptyRoot, HeadImage, SameOutside;
      ghost var before := mem[..];
      LinkRoot(rootSize);
      ghost var linked := mem[..];
      WriteHead(rootSize, align);
      ghost var headed := mem[..];
      EmptyWritten(before, linked, headed, limit, r, rootSize, align);
      EntryAssign(r / 4 + 5, ROOT_ID, 0, rootSize);
      HeadKept(before, headed, mem[..], limit, r, EmptyRoot(rootSize, align));
    }

    /** The words written for an empty block, but for its one entry. */
    static lemma EmptyWritten(m: seq<word>, linked: seq<word>, n: seq<word>, limit: nat, r: nat, rootSize: word,
                              align: word)
      requires Fits(m, limit, r, NumEntries(rootSize)) && NumEntries(rootSize) > 0
      requires linked == m[limit / 4 - 2 := ROOT_PTR_MAGIC][limit / 4 - 1 := Word(r - (limit - 8))]
      requires n
               == linked[r / 4 := NumEntries(rootSize)]
                        [r / 4 + 1 := 1][r / 4 + 2 := 0][r / 4 + 3 := align][r / 4 + 4 := 0]
      ensures EmptyRoot(rootSize, align).maxEntries == NumEntries(rootSize)
      ensures HeadImage(n, limit, r, EmptyRoot(rootSize, align)) && SameOutside(m, n, r / 4, limit / 4)
    {
      hide NumEntries;
    }

    /** Writing the first entry leaves the head of the block as it is. */
    static lemma HeadKept(m: seq<word>, n: seq<word>, w: seq<word>, limit: nat, r: nat, root: Root)
      requires Fits(n, limit, r, root.maxEntries) && root.maxEntries > 0
      requires HeadImage(n, limit, r, root) && SameOutside(m, n, r / 4, limit / 4)
               && SameOutside(n, w, r / 4 + 5, r / 4 + 9)
      ensures HeadImage(w, limit, r, root) && SameOutside(m, w, r / 4, limit / 4)
    {}

    /** `imd_link_root` */
    method LinkRoot(rootSize: word)
      requires Fits(mem[..], limit, r, NumEntries(rootSize))
      modifies mem
      ensures mem[..] == old(mem[..])[limit / 4 - 2 := ROOT_PTR_MAGIC][limit / 4 - 1 := Word(r - (limit - 8))]
    {
      mem[limit / 4 - 2] := ROOT_PTR_MAGIC;
      mem[limit / 4 - 1] := Word(r - (limit - 8));
    }

    method WriteHead(rootSize: word, align: word)
      requires Fits(mem[..], limit, r, NumEntries(rootSize))
      modifies mem
      ensures mem[..]
              == old(mem[..])[r / 4 := NumEntries(rootSize)]
                             [r / 4 + 1 := 1][r / 4 + 2 := 0][r / 4 + 3 := align][r / 4 + 4 := 0]
    {
      var a := r / 4;
      mem[a], mem[a + 1], mem[a + 2], mem[a + 3], mem[a + 4] := 0, 0, 0, 0, 0;
      mem[a + 3] := align;
      mem[a] := NumEntries(rootSize);
      mem[a + 1] := 1;
    }

    /** `imd_entry_assign` */
    method EntryAssign(at: nat, id: word, offset: int, size: word)
      requires at + 4 <= mem.Length
      modifies mem
      ensures mem[..] == old(mem[..])[at := ENTRY_MAGIC][at + 1 := Word(offset)][at + 2 := size][at + 3 := id]
      ensures EntryImage(mem[..], at, Entry(offset, size, id)) && SameOutside(old(mem[..]), mem[..], at, at + 4)
    {
      mem[at] := ENTRY_MAGIC;
      mem[at + 1] := Word(offset);
      mem[at + 2] := size;
      mem[at + 3] := id;
    }

    static lemma NumEntriesFit(rootSize: word, align: word)
      requires 64 <= rootSize <= LIMIT_ALIGN && IsPower(align)
      ensures 2 <= NumEntries(rootSize) && 28 + 16 * NumEntries(rootSize) <= rootSize
      ensures EmptyRoot(rootSize, align).maxEntries == NumEntries(rootSize)
              && EmptyRoot(rootSize, align).entries == [Entry(0, rootSize, ROOT_ID)]
      ensures Ranged(EmptyRoot(rootSize, align))
    {}

    static lemma PageMultiple(rootSize: word)
      requires IsPower(rootSize) && 64 <= rootSize
      ensures rootSize % 4 == 0
    {
      var p: nat :| rootSize == Pow2(p);
      assert Pow2(0) == 1 && Pow2(1) == 2;
      assert Pow2(p) == 2 * Pow2(p - 1) && Pow2(p - 1) == 2 * Pow2(p - 2);
    }

    /** `imdr_recover`.  The ghost arguments say what an earlier stage has left in memory. */
    method Recover(ghost at: word, ghost written: Root) returns (ok: bool)
      requires limit % 4 == 0 && limit / 4 <= mem.Length && (limit == 0 || limit >= 8)
      requires limit != 0 && mem[limit / 4 - 2] == ROOT_PTR_MAGIC ==>
                 Image(mem[..], limit, at, written) && Ranged(written)
      modifies this`r, this`root
      ensures ok <==> limit != 0 && mem[limit / 4 - 2] == ROOT_PTR_MAGIC && Recoverable(limit, at, written)
      ensures ok ==> r == at && root == written && Valid()
      ensures !ok ==> r == old(r) && root == old(root)
    {
      hide AlignUp, PowerOrZero, EntryOk, Ranged;
      if limit == 0 || mem[limit / 4 - 2] != ROOT_PTR_MAGIC {
        return false;
      }
      AddSigned(limit - 8, at - (limit - 8));
      var a: int := Word(limit - 8 + Signed(mem[limit / 4 - 1]));
      assert a == at;
      if AlignUp(Word(EntryAddr(a, mem[a / 4])), LIMIT_ALIGN) != limit
         || mem[a / 4 + 1] > mem[a / 4] || !PowerOrZero(mem[a / 4 + 3]) {
        return false;
      }
      var lowLimit := Word(a + mem[a / 4 + 4]);
      if lowLimit == a {
        lowLimit := 0;
      }
      for i := 0 to mem[a / 4 + 1]
        invariant forall k | 0 <= k < i :: EntryOk(limit, a, lowLimit, written.entries[k])
        invariant r == old(r) && root == old(root)
      {
        var e := a / 4 + 5 + 4 * i;
        assert EntryImage(mem[..], e, written.entries[i]);
        if mem[e] != ENTRY_MAGIC {
          return false;
        }
        var good := CheckEntry(a, lowLimit, mem[e + 1], mem[e + 2], written.entries[i]);
        if !good {
          return false;
        }
      }
      r, root := a, written;
      ok := true;
    }

    /** The root pointer, taken on trust. */
    method Follow(ghost at: word, ghost written: Root)
      requires Image(mem[..], limit, at, written) && Ranged(written)
      modifies this`r, this`root
      ensures r == at && root == written && Valid()
    {
      AddSigned(limit - 8, at - (limit - 8));
      r, root := Word(limit - 8 + Signed(mem[limit / 4 - 1])), written;
    }

    method CheckEntry(a: word, lowLimit: word, offset: word, size: word, ghost e: Entry) returns (ok: bool)
      requires offset == Word(e.start) && size == e.size
      ensures ok <==> EntryOk(limit, a, lowLimit, e)
    {
      AddSigned(a, e.start);
      var start := Word(a + Signed(offset));
      ok := lowLimit <= start < limit && Word(start + size) <= limit;
    }

    /** `imdr_entry_find`: the address of the entry, or 0. */
    method EntryFind(id: word) returns (e: word)
      requires Valid()
      ensures r == 0 ==> e == 0
      ensures r != 0 ==>
                match Find(root, id) case None => e == 0 case Some(k) => k < |root.entries| && e == EntryAddr(r, k)
    {
      if r == 0 {
        return 0;
      }
      FindFromIs(root.entries, id, 1);
      for i := 1 to mem[r / 4 + 1]
        invariant Find(root, id) == FindFrom(root.entries, id, i)
      {
        assert EntryImage(mem[..], r / 4 + 5 + 4 * i, root.entries[i]);
        if id == mem[r / 4 + 5 + 4 * i + 3] {
          return EntryAddr(r, i);
        }
      }
      e := 0;
    }

    /** `imdr_limit_size` */
    method LimitSize(maxSize: word) returns (ok: bool)
      requires Valid() && (r != 0 ==> root.entries[0].size == limit - r)
      modifies this`root, mem
      ensures Valid() && SameOutside(old(mem[..]), mem[..], r / 4, limit / 4)
      ensures ok <==> r != 0 && ImdRoot.LimitSize(old(root), limit - r, maxSize).Some?
      ensures if ok
              then root == ImdRoot.LimitSize(old(root), limit - r, maxSize).value
              else root == old(root) && unchanged(mem)
    {
      if r == 0 {
        return false;
      }
      var rootSize := limit - r;
      if maxSize < rootSize {
        return false;
      }
      ghost var before := mem[..];
      mem[r / 4 + 4] := Word(rootSize - maxSize);
      root := root.(maxOffset := Word(rootSize - maxSize));
      ImageHead(before, mem[..], limit, r, old(root), root.flags, root.maxOffset);
      ok := true;
    }

    /** `imd_lockdown`, for one block. */
    method Lockdown()
      requires Valid() && r != 0
      modifies this`root, mem
      ensures Valid() && SameOutside(old(mem[..]), mem[..], r / 4, limit / 4)
      ensures root == old(root).(flags := if Locked(old(root)) then old(root).flags else Word(old(root).flags + 1))
    {
      ghost var before := mem[..];
      var flags := mem[r / 4 + 2];
      if flags % 2 == 0 {
        flags := Word(flags + 1);
      }
      mem[r / 4 + 2] := flags;
      root := root.(flags := flags);
      ImageHead(before, mem[..], limit, r, old(root), flags, root.maxOffset);
    }

    /** `imd_root_data_left` */
    method DataLeft() returns (left: word)
      requires Valid() && r != 0
      ensures left == ImdRoot.DataLeft(root)
    {
      var start := LastStart();
      var maxOffset := mem[r / 4 + 4];
      left := if maxOffset != 0 then Word(start - maxOffset) else WORD - 1;
    }

    method Align() returns (align: word)
      requires Valid() && r != 0
      ensures align == root.align
    {
      align := mem[r / 4 + 3];
    }

    /** The offset of the last entry. */
    method LastStart() returns (start: int)
      requires Valid() && r != 0
      ensures start == Last(root).start
    {
      var at := r / 4 + 5 + 4 * (mem[r / 4 + 1] - 1);
      assert EntryImage(mem[..], at, Last(root));
      WordSigned(Last(root).start);
      start := Signed(mem[at + 1]);
    }

    /** `imdr_entry_add` with `imd_entry_add_to_root`: the address of the new entry, or 0. */
    method EntryAdd(id: word, size: word) returns (e: word)
      requires Valid()
      modifies this`root, mem
      ensures Valid() && SameOutside(old(mem[..]), mem[..], r / 4, limit / 4)
      ensures r == 0 ==> e == 0
      ensures r != 0 ==> match Add(old(root), id, size)
                         case None => e == 0 && root == old(root)
                         case Some(n) => e == EntryAddr(r, |old(root).entries|) && root == n
    {
      hide AlignUp, Ranged, Signed, Word;
      if r == 0 || mem[r / 4 + 2] % 2 == 1 {
        return 0;
      }
      AlignPositive();
      AddRanged(root, id, size);
      var n := mem[r / 4 + 1];
      if n == mem[r / 4] {
        return 0;
      }
      var used := AlignUp(size, mem[r / 4 + 3]);
      var left := DataLeft();
      if used > left {
        return 0;
      }
      var last := LastStart();
      var offset := Signed(Word(last - Signed(used)));
      if offset > last {
        return 0;
      }
      Assign(n, id, offset, size);
      e := EntryAddr(r, n);
    }

    lemma AlignPositive()
      requires Valid() && r != 0
      ensures root.align > 0
    {}

    /** One more entry, in slot `n`. */
    method Assign(n: word, id: word, offset: int, size: word)
      requires Valid() && r != 0 && n == |root.entries| < root.maxEntries && -HALF <= offset <= 0
      modifies this`root, mem
      ensures Valid() && SameOutside(old(mem[..]), mem[..], r / 4, limit / 4)
      ensures root == Append(old(root), Entry(offset, size, id))
    {
      ghost var before := mem[..];
      var at := r / 4 + 5 + 4 * n;
      mem[r / 4 + 1] := n + 1;
      EntryAssign(at, id, offset, size);
      ImageAppend(before, mem[..], limit, r, root, Entry(offset, size, id));
      root := Append(root, Entry(offset, size, id));
    }

    /** `imdr_has_entry`: is this the address of an entry of this block? */
    method HasEntry(e: word) returns (yes: bool, ghost k: nat)
      requires Valid() && (r != 0 ==> (e - EntryAddr(r, 0)) % 16 == 0)
      ensures yes <==> r != 0 && e >= EntryAddr(r, 0) && e < EntryAddr(r, |root.entries|)
      ensures yes ==> k < |root.entries| && e == EntryAddr(r, k)
    {
      k := 0;
      if r == 0 {
        return false, 0;
      }
      var idx := Word((e - EntryAddr(r, 0)) / 16);
      yes := idx < mem[r / 4 + 1];
      if yes {
        k := idx;
      }
    }

    /** The address of entry `k`, or 0 if there is no such entry. */
    method EntryAddress(k: nat) returns (e: word)
      requires Valid()
      ensures e == if r != 0 && k < |root.entries| then EntryAddr(r, k) else 0
    {
      e := if r != 0 && k < mem[r / 4 + 1] then EntryAddr(r, k) else 0;
    }

    /** `imdr_entry_at` */
    method EntryAt(e: word, ghost k: nat) returns (a: word)
      requires Valid() && r != 0 && k < |root.entries| && e == EntryAddr(r, k)
      ensures a == Word(r + root.entries[k].start)
    {
      assert EntryImage(mem[..], r / 4 + 5 + 4 * k, root.entries[k]);
      AddSigned(r, root.entries[k].start);
      a := Word(r + Signed(mem[e / 4 + 1]));
    }

    /** `imdr_entry_size` */
    method EntrySize(e: word, ghost k: nat) returns (size: word)
      requires Valid() && r != 0 && k < |root.entries| && e == EntryAddr(r, k)
      ensures size == root.entries[k].size
    {
      assert EntryImage(mem[..], r / 4 + 5 + 4 * k, root.entries[k]);
      size := mem[e / 4 + 2];
    }

    /** The removal in `imd_entry_remove`, of the entry at address `e`. */
    method EntryRemove(e: word) returns (ok: bool)
      requires Valid() && r != 0 && |root.entries| > 1
      modifies this`root, mem
      ensures Valid() && SameOutside(old(mem[..]), mem[..], r / 4, limit / 4)
      ensures ok <==> !Locked(old(root)) && e == EntryAddr(r, |old(root).entries| - 1)
      ensures root == if ok then DropLast(old(root)) else old(root)
    {
      if mem[r / 4 + 2] % 2 == 1 || e != EntryAddr(r, mem[r / 4 + 1] - 1) {
        return false;
      }
      ghost var before := mem[..];
      mem[r / 4 + 1] := mem[r / 4 + 1] - 1;
      ImageDrop(before, mem[..], limit, r, root);
      root := DropLast(root);
      ok := true;
    }
  }
}
