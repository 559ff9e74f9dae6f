/** One root block of the in-memory directory, as a value: entries are laid out downwards
    from the root.  Words are 32 bits wide, as on the 32-bit machines this code runs on. */
module ImdRoot {
  import opened Wrappers
  import opened PowersOfTwo

  const WORD: nat := 0x1_0000_0000
  const HALF: int := 0x8000_0000

  type word = w: int | 0 <= w < WORD

  const ROOT_ID: word := 0xff4017ff
  const LIMIT_ALIGN: word := 4096

  /** `start` is relative to the root. */
  datatype Entry = Entry(start: int, size: word, id: word)

  datatype Root = Root(maxEntries: word, flags: word, align: word, maxOffset: word, entries: seq<Entry>)

  function Word(v: int): word { v % WORD }

  lemma InWord(v: int)
    ensures 0 <= v < WORD ==> Word(v) == v
  {}

  /** A word read as a signed number. */
  function Signed(w: word): int { if w < HALF then w else w - WORD }

  /** `ALIGN_UP` in 32 bits. */
  function AlignUp(x: word, a: word): word
    requires a > 0
  {
    FloorToSmaller(Word(x + a - 1), a);
    FloorTo(Word(x + a - 1), a)
  }

  lemma FloorToSmaller(v: nat, a: nat)
    requires a > 0
    ensures FloorTo(v, a) <= v
  {
    assert v == v / a * a + v % a;
  }

  function Last(root: Root): Entry
    requires root.entries != []
  {
    root.entries[|root.entries| - 1]
  }

  predicate Locked(root: Root) { root.flags % 2 == 1 }

  /** `imd_root_data_left` */
  function DataLeft(root: Root): word
    requires root.entries != []
  {
    if root.maxOffset != 0 then Word(Last(root).start - root.maxOffset) else WORD - 1
  }

  /** `imd_entry_add_to_root`: the offset of the new entry, if it can be added. */
  function NewOffset(root: Root, size: word): Option<int>
    requires root.entries != [] && root.align > 0
  {
    var used := AlignUp(size, root.align);
    var offset := Signed(Word(Last(root).start - Signed(used)));
    if |root.entries| == root.maxEntries || used > DataLeft(root) || offset > Last(root).start
    then None
    else Some(offset)
  }

  function Append(root: Root, e: Entry): Root { root.(entries := root.entries + [e]) }

  function AddToRoot(root: Root, id: word, size: word): Option<Root>
    requires root.entries != [] && root.align > 0
  {
    match NewOffset(root, size)
    case None => None
    case Some(offset) => Some(Append(root, Entry(offset, size, id)))
  }

  /** `imdr_entry_add` */
  function Add(root: Root, id: word, size: word): Option<Root>
    requires root.entries != [] && root.align > 0
  {
    if Locked(root) then None else AddToRoot(root, id, size)
  }

  /** `imdr_limit_size`, for a root block of `rootSize` bytes. */
  function LimitSize(root: Root, rootSize: word, maxSize: word): Option<Root> {
    if maxSize < rootSize then None else Some(root.(maxOffset := Word(rootSize - maxSize)))
  }

  /** Removal of the last entry. */
  function DropLast(root: Root): Root
    requires root.entries != []
  {
    root.(entries := root.entries[..|root.entries| - 1])
  }

  /** `imdr_entry_find`: the first entry with this id, other than the root's own. */
  function FindFrom(entries: seq<Entry>, id: word, i: nat): Option<nat>
    decreases |entries| - i
  {
    if i >= |entries| then None else if entries[i].id == id then Some(i) else FindFrom(entries, id, i + 1)
  }

  function Find(root: Root, id: word): Option<nat> { FindFrom(root.entries, id, 1) }

  lemma {:induction false} FindFromIs(entries: seq<Entry>, id: word, i: nat)
    ensures match FindFrom(entries, id, i)
            case None => forall k | i <= k < |entries| :: entries[k].id != id
            case Some(n) => i <= n < |entries| && entries[n].id == id && forall k | i <= k < n :: entries[k].id != id
    decreases |entries| - i
  {
    if i < |entries| && entries[i].id != id { FindFromIs(entries, id, i + 1); }
  }

  /** The number of entries a root block has room for. */
  function NumEntries(rootSize: word): word { Word(rootSize - 8 - 20) / 16 }

  function EmptyRoot(rootSize: word, align: word): Root {
    Root(NumEntries(rootSize), 0, align, 0, [Entry(0, rootSize, ROOT_ID)])
  }

  // ----- the layout of one root block

  ghost predicate IsPower(a: nat) { exists p: nat :: a == Pow2(p) }

  /** The bytes below the root that the limit allows, when there is one. */
  function Budget(root: Root): int { WORD - root.maxOffset }

  /** Each entry lies directly below the one before, rounded up to the alignment. */
  ghost predicate Chained(align: word, entries: seq<Entry>)
    requires align > 0
  {
    forall k | 1 <= k < |entries| ::
      entries[k].size + align <= WORD && entries[k].start == entries[k - 1].start - RoundTo(entries[k].size, align)
  }

  /** The layout: a chain of entries from the root down, within the limit. */
  ghost predicate Packed(root: Root, rootSize: word) {
    && IsPower(root.align) && 0 < root.align <= LIMIT_ALIGN
    && 1 <= |root.entries| <= root.maxEntries && root.entries[0] == Entry(0, rootSize, ROOT_ID)
    && Chained(root.align, root.entries)
    && -HALF <= Last(root).start
    && (root.maxOffset != 0 ==> -Budget(root) <= Last(root).start)
  }

  lemma AlignUpIs(x: word, a: word)
    requires a > 0
    ensures x + a <= WORD ==> AlignUp(x, a) == RoundTo(x, a)
    ensures x + a > WORD ==> AlignUp(x, a) == 0
  {
    if x + a > WORD {
      var v := x + a - 1 - WORD;
      assert Word(x + a - 1) == v < a;
      DivUnique(v, 0, v, a);
    }
  }

  /** The entries go down. */
  lemma {:induction false} ChainDown(align: word, entries: seq<Entry>, j: nat, k: nat)
    requires align > 0 && Chained(align, entries) && j < k < |entries|
    ensures entries[k].start + entries[k].size <= entries[k].start + RoundTo(entries[k].size, align) <= entries[j].start
    decreases k
  {
    RoundToProperties(entries[k].size, align);
    if j < k - 1 { ChainDown(align, entries, j, k - 1); }
  }

  /** No two entries overlap: a later one ends where an earlier one starts, or before. */
  lemma EntriesApart(root: Root, rootSize: word, j: nat, k: nat)
    requires Packed(root, rootSize) && j < k < |root.entries|
    ensures root.entries[k].start + root.entries[k].size <= root.entries[j].start
    ensures Last(root).start <= root.entries[k].start <= 0
  {
    hide RoundTo, IsPower;
    ChainDown(root.align, root.entries, j, k);
    if j > 0 { ChainDown(root.align, root.entries, 0, j); }
    if k < |root.entries| - 1 { ChainDown(root.align, root.entries, k, |root.entries| - 1); }
  }

  /** Every entry is aligned relative to the root. */
  lemma {:induction false} EntriesAligned(align: word, entries: seq<Entry>, k: nat)
    requires align > 0 && Chained(align, entries) && k < |entries| && entries[0].start == 0
    ensures entries[k].start % align == 0
    decreases k
  {
    if k > 0 {
      EntriesAligned(align, entries, k - 1);
      RoundToProperties(entries[k].size, align);
      var q, p := entries[k - 1].start / align, RoundTo(entries[k].size, align) / align;
      ExactQuotient(entries[k - 1].start, align);
      ExactQuotient(RoundTo(entries[k].size, align), align);
      Distribute(q, p, align);
      MultipleOf(q - p, align);
    } else {
      MultipleOf(0, align);
    }
  }

  /** The room below the last entry. */
  function Room(root: Root): int
    requires root.entries != []
  {
    var low := if root.maxOffset != 0 && Budget(root) < HALF then -Budget(root) else -HALF;
    Last(root).start - low
  }

  /** When an entry is added: there is a free slot, and the rounded size fits in the room
      below the last entry.  It is placed directly below the last entry. */
  lemma AddExact(root: Root, rootSize: word, id: word, size: word)
    requires Packed(root, rootSize) && size + root.align <= WORD
    ensures root.align > 0
    ensures AddToRoot(root, id, size).Some? <==>
              |root.entries| < root.maxEntries && RoundTo(size, root.align) <= Room(root)
    ensures AddToRoot(root, id, size).Some? ==>
              AddToRoot(root, id, size).value
                == Append(root, Entry(Last(root).start - RoundTo(size, root.align), size, id))
  {
    AlignUpIs(size, root.align);
    OffsetExact(Last(root).start, AlignUp(size, root.align));
    LeftExact(root);
    hide RoundTo, AlignUp, IsPower, Chained, Signed, Word, DataLeft;
    if |root.entries| > 1 { EntriesApart(root, rootSize, 0, |root.entries| - 1); }
  }

  /** The overflow test on the 32-bit offset is exact. */
  lemma OffsetExact(last: int, used: word)
    ensures -HALF <= last <= 0 ==>
              (Signed(Word(last - Signed(used))) <= last <==> last - used >= -HALF)
              && (last - used >= -HALF ==> Signed(Word(last - Signed(used))) == last - used)
  {}

  lemma LeftExact(root: Root)
    requires root.entries != []
    ensures root.maxOffset != 0 && -HALF <= Last(root).start <= 0 && -Budget(root) <= Last(root).start ==>
              DataLeft(root) == Last(root).start + Budget(root)
    ensures root.maxOffset == 0 ==> DataLeft(root) == WORD - 1
  {}

  /** Adding keeps the layout exactly when rounding the size up does not wrap. */
  lemma AddPacked(root: Root, rootSize: word, id: word, size: word)
    requires Packed(root, rootSize)
    ensures root.align > 0
    ensures AddToRoot(root, id, size).Some? ==>
              (Packed(AddToRoot(root, id, size).value, rootSize) <==> size + root.align <= WORD)
  {
    hide RoundTo, IsPower, Chained, AlignUp;
    if AddToRoot(root, id, size).Some? {
      var e := Last(AddToRoot(root, id, size).value);
      ChainedAppend(root.align, root.entries, e);
      if size + root.align <= WORD {
        AddExact(root, rootSize, id, size);
      }
    }
  }

  lemma ChainedAppend(align: word, entries: seq<Entry>, e: Entry)
    requires align > 0 && entries != []
    ensures Chained(align, entries + [e]) <==>
              Chained(align, entries) && e.size + align <= WORD
                && e.start == entries[|entries| - 1].start - RoundTo(e.size, align)
  {
    hide RoundTo;
    var n, all := |entries|, entries + [e];
    assert all[n] == e && all[n - 1] == entries[n - 1];
    if Chained(align, all) {
      forall k | 1 <= k < n
        ensures entries[k].size + align <= WORD
                && entries[k].start == entries[k - 1].start - RoundTo(entries[k].size, align)
      {
        assert all[k] == entries[k] && all[k - 1] == entries[k - 1];
      }
    }
  }

  lemma DropPacked(root: Root, rootSize: word)
    requires Packed(root, rootSize) && |root.entries| > 1
    ensures Packed(DropLast(root), rootSize)
  {
    hide RoundTo, IsPower;
    var n := |root.entries| - 1;
    EntriesApart(root, rootSize, n - 1, n);
  }

  /** A limit no lower than what is in use keeps the layout, and then bounds every later
      entry; except that a limit of exactly the root size is stored as no limit at all. */
  lemma LimitPacked(root: Root, rootSize: word, maxSize: word)
    requires Packed(root, rootSize) && rootSize <= maxSize
    ensures var after := LimitSize(root, rootSize, maxSize).value;
            && (Packed(after, rootSize) <==> maxSize == rootSize || rootSize - maxSize <= Last(root).start)
            && (after.maxOffset == 0 <==> maxSize == rootSize)
            && (maxSize != rootSize ==> Budget(after) == maxSize - rootSize)
  {
    hide RoundTo, IsPower, Chained;
  }

  /** A size in the last `align - 1` bytes of the word range is accepted whenever a slot is
      free, takes up no space, and its entry lies over everything above it. */
  lemma WrappingSizeAccepted(root: Root, rootSize: word, id: word, size: word)
    requires Packed(root, rootSize) && |root.entries| < root.maxEntries && size + root.align > WORD
    ensures root.align > 0
    ensures AddToRoot(root, id, size) == Some(Append(root, Entry(Last(root).start, size, id)))
  {
    AlignUpIs(size, root.align);
    hide RoundTo, IsPower, AlignUp, Chained;
    if |root.entries| > 1 { EntriesApart(root, rootSize, 0, |root.entries| - 1); }
  }

  /** No two entries overlap, in the order of the block. */
  ghost predicate AllApart(root: Root) {
    forall j, k | 0 <= j < k < |root.entries| :: root.entries[k].start + root.entries[k].size <= root.entries[j].start
  }

  /** After an addition entries are still apart exactly when rounding the size up does not
      wrap. */
  lemma AddApart(root: Root, rootSize: word, id: word, size: word)
    requires Packed(root, rootSize)
    ensures root.align > 0
    ensures AddToRoot(root, id, size).Some? ==>
              (AllApart(AddToRoot(root, id, size).value) <==> size + root.align <= WORD)
  {
    hide RoundTo, IsPower, Chained, AlignUp, NewOffset;
    if AddToRoot(root, id, size).Some? {
      var after := AddToRoot(root, id, size).value;
      if size + root.align <= WORD {
        AddPacked(root, rootSize, id, size);
        forall j, k | 0 <= j < k < |after.entries|
          ensures after.entries[k].start + after.entries[k].size <= after.entries[j].start
        {
          EntriesApart(after, rootSize, j, k);
        }
      } else {
        SlotFree(root, id, size);
        WrappingSizeAccepted(root, rootSize, id, size);
        var n := |root.entries|;
        assert after.entries[n].start == after.entries[n - 1].start;
      }
    }
  }

  lemma SlotFree(root: Root, id: word, size: word)
    requires root.entries != [] && root.align > 0 && |root.entries| <= root.maxEntries
    ensures AddToRoot(root, id, size).Some? ==> |root.entries| < root.maxEntries
  {
    hide AlignUp, Signed, Word;
  }

  lemma EmptyPacked(rootSize: word, align: word)
    requires 64 <= rootSize && IsPower(align) && align <= LIMIT_ALIGN
    ensures Packed(EmptyRoot(rootSize, align), rootSize)
  {}
}
