/** The two-tier in-memory directory as a state machine: a large root block, and a small
    one inside the first large entry. */
module ImdTiers {
  import opened Wrappers
  import opened PowersOfTwo
  import opened ImdRoot

  const SMALL_ID: word := 0x53a11439

  datatype Imd = Imd(limit: word, lg: Root, sm: Option<Root>)

  datatype Loc = Loc(small: bool, index: nat)

  // ----- operations

  predicate CreateOk(rootSize: word, align: word) {
    28 <= rootSize <= LIMIT_ALIGN && align <= LIMIT_ALIGN && align <= rootSize
  }

  /** The size of the large entry that holds the small tier. */
  function SmallRegion(lgAlign: word, smSize: word, smAlign: word): word
    requires lgAlign > 0
  {
    AlignUp(Word(NumEntries(smSize) * smAlign + smSize), lgAlign)
  }

  /** `imd_create_tiered_empty` */
  function Create(limit: word, lgSize: word, lgAlign: word, smSize: word, smAlign: word): Option<Imd>
    requires lgAlign > 0
  {
    if limit == 0 || !CreateOk(lgSize, lgAlign) then None
    else
      var region := SmallRegion(lgAlign, smSize, smAlign);
      match Add(EmptyRoot(lgSize, lgAlign), SMALL_ID, region)
      case None => None
      case Some(lg) =>
        if Word(limit - lgSize + Last(lg).start + region) == 0 || !CreateOk(smSize, smAlign) then None
        else match LimitSize(EmptyRoot(smSize, smAlign), smSize, region)
          case None => None
          case Some(sm) => Some(Imd(limit, lg, Some(sm)))
  }

  predicate Usable(imd: Imd) {
    imd.lg.entries != [] && imd.lg.align > 0 && (imd.sm.Some? ==> imd.sm.value.entries != [] && imd.sm.value.align > 0)
  }

  /** An allocation is tried in the small tier if it is small. */
  predicate TrySmall(imd: Imd, size: word)
    requires Usable(imd)
  {
    imd.sm.Some? && (size <= imd.sm.value.align || size <= DataLeft(imd.sm.value) / 4)
  }

  /** `imd_entry_add`: the directory afterwards, and where the entry is. */
  function EntryAdd(imd: Imd, id: word, size: word): (Imd, Option<Loc>)
    requires Usable(imd)
  {
    if TrySmall(imd, size) && Add(imd.sm.value, id, size).Some?
    then (imd.(sm := Add(imd.sm.value, id, size)), Some(Loc(true, |imd.sm.value.entries|)))
    else match Add(imd.lg, id, size)
      case None => (imd, None)
      case Some(lg) => (imd.(lg := lg), Some(Loc(false, |imd.lg.entries|)))
  }

  /** `imd_entry_find` */
  function EntryFind(imd: Imd, id: word): Option<Loc> {
    if imd.sm.Some? && Find(imd.sm.value, id).Some? then Some(Loc(true, Find(imd.sm.value, id).value))
    else match Find(imd.lg, id)
      case None => None
      case Some(k) => Some(Loc(false, k))
  }

  /** `imd_entry_remove`: only the last entry of its tier can go. */
  function EntryRemove(imd: Imd, loc: Loc): Option<Imd>
    requires Usable(imd)
  {
    if loc.small then
      if imd.sm.None? || Locked(imd.sm.value) || loc.index != |imd.sm.value.entries| - 1 then None
      else Some(imd.(sm := Some(DropLast(imd.sm.value))))
    else if Locked(imd.lg) || loc.index != |imd.lg.entries| - 1 then None
    else Some(imd.(lg := DropLast(imd.lg)))
  }

  function Lock(root: Root): Root { root.(flags := if Locked(root) then root.flags else Word(root.flags + 1)) }

  datatype Op =
    | AddOp(id: word, size: word)
    | FindOrAddOp(id: word, size: word)
    | RemoveOp(loc: Loc)
    | LimitOp(maxSize: word)
    | LockdownOp

  /** The size of the large root block. */
  function LgSize(imd: Imd): word
    requires imd.lg.entries != []
  {
    imd.lg.entries[0].size
  }

  function Step(imd: Imd, op: Op): Imd
    requires Usable(imd)
  {
    match op
    case AddOp(id, size) => EntryAdd(imd, id, size).0
    case FindOrAddOp(id, size) => if EntryFind(imd, id).Some? then imd else EntryAdd(imd, id, size).0
    case RemoveOp(loc) => (match EntryRemove(imd, loc) case None => imd case Some(n) => n)
    case LimitOp(maxSize) =>
      (match LimitSize(imd.lg, LgSize(imd), maxSize) case None => imd case Some(lg) => imd.(lg := lg))
    case LockdownOp => Imd(imd.limit, Lock(imd.lg), if imd.sm.None? then None else Some(Lock(imd.sm.value)))
  }

  // ----- the invariant

  ghost predicate RootSound(root: Root) {
    root.entries != [] && Packed(root, root.entries[0].size)
    && IsPower(root.entries[0].size) && 64 <= root.entries[0].size <= LIMIT_ALIGN && root.align <= root.entries[0].size
    && root.maxEntries == NumEntries(root.entries[0].size)
  }

  ghost predicate Sound(imd: Imd) {
    && imd.limit % LIMIT_ALIGN == 0 && RootSound(imd.lg)
    && (imd.sm.Some? ==> RootSound(imd.sm.value) && Inside(imd.lg, imd.sm.value))
  }

  /** The first large entry is the region that the small tier is limited to. */
  predicate Inside(lg: Root, sm: Root)
    requires sm.entries != []
  {
    && sm.maxOffset != 0 && |lg.entries| >= 2
    && lg.entries[1].start + lg.entries[1].size == 0 && lg.entries[1].id == SMALL_ID
    && lg.entries[1].size == sm.entries[0].size + Budget(sm)
  }

  /** What callers must keep to: sizes do not wrap when rounded up, only entries they have
      added are removed, and no limit is set below what is in use. */
  ghost predicate Allowed(imd: Imd, op: Op)
    requires Usable(imd)
  {
    match op
    case AddOp(id, size) => Roundable(imd, size)
    case FindOrAddOp(id, size) => Roundable(imd, size)
    case RemoveOp(loc) => loc.index >= (if imd.sm.Some? && !loc.small then 2 else 1)
    case LimitOp(maxSize) => maxSize <= LgSize(imd) || LgSize(imd) - maxSize <= Last(imd.lg).start
    case LockdownOp => true
  }

  predicate Roundable(imd: Imd, size: word) {
    size + imd.lg.align <= WORD && (imd.sm.Some? ==> size + imd.sm.value.align <= WORD)
  }

  lemma SoundUsable(imd: Imd)
    requires Sound(imd)
    ensures Usable(imd)
  {
    hide IsPower, Chained;
  }

  lemma AddRootSound(root: Root, id: word, size: word)
    requires RootSound(root) && size + root.align <= WORD
    ensures root.align > 0
    ensures Add(root, id, size).Some? ==>
              RootSound(Add(root, id, size).value) && root.entries < Add(root, id, size).value.entries
              && Add(root, id, size).value.maxOffset == root.maxOffset
  {
    hide IsPower, Chained, AlignUp;
    AddPacked(root, root.entries[0].size, id, size);
  }

  lemma LockSound(root: Root)
    requires RootSound(root)
    ensures RootSound(Lock(root)) && Lock(root).entries == root.entries && Lock(root).maxOffset == root.maxOffset
            && Locked(Lock(root))
  {
    hide IsPower, Chained;
  }

  lemma LockTierSound(imd: Imd, small: bool)
    requires Sound(imd) && (small ==> imd.sm.Some?)
    ensures Sound(if small then imd.(sm := Some(Lock(imd.sm.value))) else imd.(lg := Lock(imd.lg)))
  {
    if small { LockSound(imd.sm.value); } else { LockSound(imd.lg); }
    hide RootSound;
  }

  lemma DropRootSound(root: Root)
    requires RootSound(root) && |root.entries| > 1
    ensures RootSound(DropLast(root)) && DropLast(root).entries < root.entries
  {
    hide IsPower, Chained;
    DropPacked(root, root.entries[0].size);
  }

  /** An addition to either tier keeps the layout, and the entries before it. */
  lemma AddLargeSound(imd: Imd, id: word, size: word)
    requires Sound(imd) && Roundable(imd, size)
    ensures Usable(imd)
    ensures Add(imd.lg, id, size).Some? ==>
              Sound(imd.(lg := Add(imd.lg, id, size).value)) && imd.lg.entries < Add(imd.lg, id, size).value.entries
  {
    SoundUsable(imd);
    AddRootSound(imd.lg, id, size);
    hide RootSound, Add;
    if Add(imd.lg, id, size).Some? { KeepsFirst(imd, imd.(lg := Add(imd.lg, id, size).value)); }
  }

  lemma AddSmallSound(imd: Imd, id: word, size: word)
    requires Sound(imd) && Roundable(imd, size) && imd.sm.Some?
    ensures Usable(imd)
    ensures Add(imd.sm.value, id, size).Some? ==>
              Sound(imd.(sm := Add(imd.sm.value, id, size)))
                && imd.sm.value.entries < Add(imd.sm.value, id, size).value.entries
  {
    SoundUsable(imd);
    AddRootSound(imd.sm.value, id, size);
    hide RootSound, Add;
    if Add(imd.sm.value, id, size).Some? { KeepsFirst(imd, imd.(sm := Add(imd.sm.value, id, size))); }
  }

  lemma AddSound(imd: Imd, id: word, size: word)
    requires Sound(imd) && Roundable(imd, size)
    ensures Usable(imd) && Sound(EntryAdd(imd, id, size).0)
  {
    hide Sound, Add, DataLeft;
    AddLargeSound(imd, id, size);
    if imd.sm.Some? { AddSmallSound(imd, id, size); }
  }

  /** The region of the small tier is known from entries that stay. */
  lemma KeepsFirst(imd: Imd, next: Imd)
    requires Sound(imd) && (next.sm.Some? <==> imd.sm.Some?) && |next.lg.entries| >= (if imd.sm.Some? then 2 else 1)
    requires next.lg.entries <= imd.lg.entries || imd.lg.entries <= next.lg.entries
    requires next.sm.Some? ==>
               && next.sm.value.entries != [] && next.sm.value.maxOffset == imd.sm.value.maxOffset
               && (next.sm.value.entries <= imd.sm.value.entries || imd.sm.value.entries <= next.sm.value.entries)
    ensures next.lg.entries[0] == imd.lg.entries[0] && (next.sm.Some? ==> Inside(next.lg, next.sm.value))
  {
    hide IsPower, Chained;
  }

  /** Every operation keeps the layout. */
  lemma StepSound(imd: Imd, op: Op)
    requires Sound(imd) && Usable(imd) && Allowed(imd, op)
    ensures Sound(Step(imd, op))
  {
    match op
    case AddOp(id, size) => AddSound(imd, id, size);
    case FindOrAddOp(id, size) => AddSound(imd, id, size);
    case RemoveOp(loc) => RemoveSound(imd, loc);
    case LimitOp(maxSize) => LimitSound(imd, maxSize);
    case LockdownOp =>
      LockSound(imd.lg);
      if imd.sm.Some? { LockSound(imd.sm.value); }
      hide RootSound, Lock;
  }

  lemma RemoveSound(imd: Imd, loc: Loc)
    requires Sound(imd) && Usable(imd) && Allowed(imd, RemoveOp(loc))
    ensures Sound(Step(imd, RemoveOp(loc)))
  {
    hide IsPower, Packed;
    var next := EntryRemove(imd, loc);
    if next.Some? {
      if loc.small { DropRootSound(imd.sm.value); } else { DropRootSound(imd.lg); }
      KeepsFirst(imd, next.value);
    }
  }

  lemma LimitSound(imd: Imd, maxSize: word)
    requires Sound(imd) && Usable(imd) && Allowed(imd, LimitOp(maxSize))
    ensures Sound(Step(imd, LimitOp(maxSize)))
  {
    hide IsPower, Packed;
    if LgSize(imd) <= maxSize { LimitPacked(imd.lg, LgSize(imd), maxSize); }
  }

  // ----- runs

  ghost predicate AllAllowed(imd: Imd, ops: seq<Op>)
    decreases |ops|
  {
    ops == [] || (Usable(imd) && Allowed(imd, ops[0]) && AllAllowed(Step(imd, ops[0]), ops[1..]))
  }

  ghost function Run(imd: Imd, ops: seq<Op>): Imd
    requires AllAllowed(imd, ops)
    decreases |ops|
  {
    if ops == [] then imd else Run(Step(imd, ops[0]), ops[1..])
  }

  /** The layout holds in every state a well-behaved caller can reach. */
  lemma {:induction false} RunSound(imd: Imd, ops: seq<Op>)
    requires Sound(imd) && AllAllowed(imd, ops)
    ensures Sound(Run(imd, ops))
    decreases |ops|
  {
    hide Sound, Step, Allowed;
    if ops != [] {
      StepSound(imd, ops[0]);
      RunSound(Step(imd, ops[0]), ops[1..]);
    }
  }

  /** A new directory has the layout.  The small root starts just below the large root. */
  lemma CreateSound(limit: word, lgSize: word, lgAlign: word, smSize: word, smAlign: word)
    requires limit % LIMIT_ALIGN == 0 && IsPower(lgSize) && IsPower(lgAlign) && IsPower(smSize) && IsPower(smAlign)
    requires 64 <= lgSize && 64 <= smSize
    ensures lgAlign > 0
    ensures Create(limit, lgSize, lgAlign, smSize, smAlign).Some? ==>
              Sound(Create(limit, lgSize, lgAlign, smSize, smAlign).value)
  {
    var c := Create(limit, lgSize, lgAlign, smSize, smAlign);
    if c.Some? {
      EmptyPacked(lgSize, lgAlign);
      EmptyPacked(smSize, smAlign);
      RegionIs(lgAlign, smSize, smAlign);
      var region := SmallRegion(lgAlign, smSize, smAlign);
      AddExact(EmptyRoot(lgSize, lgAlign), lgSize, SMALL_ID, region);
      AddPacked(EmptyRoot(lgSize, lgAlign), lgSize, SMALL_ID, region);
      LimitPacked(EmptyRoot(smSize, smAlign), smSize, region);
      hide Packed, IsPower, AlignUp, AddToRoot, SmallRegion, RoundTo;
    }
  }

  /** The region is a multiple of the large alignment, and larger than the small root. */
  lemma RegionIs(lgAlign: word, smSize: word, smAlign: word)
    requires 0 < lgAlign <= LIMIT_ALIGN && 64 <= smSize <= LIMIT_ALIGN && 0 < smAlign <= LIMIT_ALIGN
    ensures var region := SmallRegion(lgAlign, smSize, smAlign);
            smSize < region <= HALF && region + lgAlign <= WORD && RoundTo(region, lgAlign) == region
  {
    hide NumEntries, AlignUp, RoundTo;
    NumEntriesBounds(smSize);
    ProductBounds(NumEntries(smSize), smAlign);
    AlignTwice(NumEntries(smSize) * smAlign + smSize, lgAlign);
  }

  /** It is the least one with room for the small root and an entry of the small alignment in
      every slot. */
  lemma RegionLeast(lgAlign: word, smSize: word, smAlign: word, region: nat)
    requires 0 < lgAlign <= LIMIT_ALIGN && 64 <= smSize <= LIMIT_ALIGN && 0 < smAlign <= LIMIT_ALIGN
    ensures var least := SmallRegion(lgAlign, smSize, smAlign);
            && least % lgAlign == 0 && smSize + NumEntries(smSize) * smAlign <= least
            && (region % lgAlign == 0 && smSize + NumEntries(smSize) * smAlign <= region ==> least <= region)
  {
    hide NumEntries, AlignUp, RoundTo;
    NumEntriesBounds(smSize);
    ProductBounds(NumEntries(smSize), smAlign);
    var v := NumEntries(smSize) * smAlign + smSize;
    AlignUpIs(v, lgAlign);
    RoundToProperties(v, lgAlign);
    if region % lgAlign == 0 && v <= region { RoundToLeast(v, lgAlign, region); }
  }

  lemma NumEntriesBounds(size: word)
    requires 64 <= size <= LIMIT_ALIGN
    ensures 2 <= NumEntries(size) <= 255 && 28 + 16 * NumEntries(size) <= size
  {}

  lemma AlignTwice(v: word, a: word)
    requires 0 < a <= LIMIT_ALIGN && v + 2 * LIMIT_ALIGN <= HALF
    ensures v <= AlignUp(v, a) <= HALF && AlignUp(v, a) + a <= WORD && RoundTo(AlignUp(v, a), a) == AlignUp(v, a)
  {
    hide RoundTo, AlignUp;
    AlignUpIs(v, a);
    RoundToProperties(v, a);
    RoundToLeast(RoundTo(v, a), a, RoundTo(v, a));
    RoundToProperties(RoundTo(v, a), a);
  }

  lemma ProductBounds(n: nat, a: nat)
    requires 2 <= n <= 255 && 0 < a <= 4096
    ensures 0 < n * a <= 255 * 4096
  {
    OrderTimes(255 - n, a);
    OrderTimes(n, a);
    Distribute(255, n, a);
  }

  // ----- safety

  function LgRoot(imd: Imd): int
    requires imd.lg.entries != []
  {
    imd.limit - LgSize(imd)
  }

  /** The upper limit of the small tier is where its region ends. */
  function SmLimit(imd: Imd): int
    requires |imd.lg.entries| >= 2
  {
    LgRoot(imd) + imd.lg.entries[1].start + imd.lg.entries[1].size
  }

  function SmRoot(imd: Imd): int
    requires |imd.lg.entries| >= 2 && imd.sm.Some? && imd.sm.value.entries != []
  {
    SmLimit(imd) - imd.sm.value.entries[0].size
  }

  ghost predicate HasEntry(imd: Imd, loc: Loc) {
    if loc.small then imd.sm.Some? && |imd.lg.entries| >= 2 && loc.index < |imd.sm.value.entries|
    else loc.index < |imd.lg.entries|
  }

  /** `imd_entry_at` and `imd_entry_size`: the address and size of an entry. */
  ghost function EntryAt(imd: Imd, loc: Loc): int
    requires HasEntry(imd, loc)
  {
    if loc.small then SmRoot(imd) + imd.sm.value.entries[loc.index].start
    else LgRoot(imd) + imd.lg.entries[loc.index].start
  }

  ghost function EntryEnd(imd: Imd, loc: Loc): int
    requires HasEntry(imd, loc)
  {
    EntryAt(imd, loc) + if loc.small then imd.sm.value.entries[loc.index].size else imd.lg.entries[loc.index].size
  }

  /** An entry for a caller's data: neither a root block nor the small tier's region. */
  ghost predicate IsData(imd: Imd, loc: Loc) {
    HasEntry(imd, loc) && loc.index >= (if imd.sm.Some? && !loc.small then 2 else 1)
  }

  /** Data lies below the large root, clear of the small root, above the limit; small data
      lies inside the small region and large data below it. */
  lemma DataPlace(imd: Imd, loc: Loc)
    requires Sound(imd) && IsData(imd, loc)
    ensures EntryAt(imd, loc) <= EntryEnd(imd, loc) <= LgRoot(imd)
    ensures imd.lg.maxOffset != 0 ==> LgRoot(imd) - Budget(imd.lg) <= EntryAt(imd, loc)
    ensures imd.sm.Some? ==>
              if loc.small then LgRoot(imd) - imd.lg.entries[1].size <= EntryAt(imd, loc)
                && EntryEnd(imd, loc) <= SmRoot(imd)
              else EntryEnd(imd, loc) <= LgRoot(imd) - imd.lg.entries[1].size
  {
    hide IsPower, Chained;
    EntriesApart(imd.lg, LgSize(imd), 0, if loc.small then 1 else loc.index);
    if loc.small {
      EntriesApart(imd.sm.value, imd.sm.value.entries[0].size, 0, loc.index);
    } else if imd.sm.Some? {
      EntriesApart(imd.lg, LgSize(imd), 1, loc.index);
    }
  }

  /** No two allocations share a byte. */
  lemma DataApart(imd: Imd, a: Loc, b: Loc)
    requires Sound(imd) && IsData(imd, a) && IsData(imd, b) && a != b
    ensures EntryEnd(imd, a) <= EntryAt(imd, b) || EntryEnd(imd, b) <= EntryAt(imd, a)
  {
    DataPlace(imd, a);
    DataPlace(imd, b);
    hide IsPower, Chained;
    if a.small == b.small {
      var low, high := if a.index < b.index then a.index else b.index, if a.index < b.index then b.index else a.index;
      if a.small {
        EntriesApart(imd.sm.value, imd.sm.value.entries[0].size, low, high);
      } else {
        EntriesApart(imd.lg, LgSize(imd), low, high);
      }
    }
  }

  lemma PowerDivides(a: nat, b: nat, v: int)
    requires IsPower(a) && IsPower(b) && a <= b && v % b == 0
    ensures v % a == 0
  {
    var p: nat :| a == Pow2(p);
    var q: nat :| b == Pow2(q);
    if p > q {
      Pow2Monotone(q + 1, p);
    }
    MultipleOfSmaller(v, q, p);
  }

  /** A directory of powers of two: the distance from an aligned limit is aligned. */
  lemma RootAligned(limit: int, size: nat, align: nat)
    requires IsPower(align) && IsPower(size) && align <= size && limit % align == 0
    ensures (limit - size) % align == 0
  {
    SelfMultiple(size);
    PowerDivides(align, size, size);
    DifferenceMultiple(limit, size, align);
  }

  lemma SelfMultiple(size: nat)
    requires IsPower(size)
    ensures size > 0 && size % size == 0
  {
    MultipleOf(1, size);
  }

  lemma DifferenceMultiple(a: int, b: int, m: int)
    requires m > 0 && a % m == 0 && b % m == 0
    ensures (a - b) % m == 0
  {
    ExactQuotient(a, m);
    ExactQuotient(b, m);
    Distribute(a / m, b / m, m);
    MultipleOf(a / m - b / m, m);
  }

  lemma LimitPower()
    ensures IsPower(LIMIT_ALIGN)
  {
    SmallPowers();
    assert Pow2(12) == 4 * Pow2(10);
  }

  /** Large entries are aligned to the large alignment. */
  lemma LargeAligned(imd: Imd, k: nat)
    requires Sound(imd) && k < |imd.lg.entries|
    ensures EntryAt(imd, Loc(false, k)) % imd.lg.align == 0
  {
    hide IsPower, Chained;
    LimitPower();
    PowerDivides(imd.lg.align, LIMIT_ALIGN, imd.limit);
    RootAligned(imd.limit, LgSize(imd), imd.lg.align);
    EntriesAligned(imd.lg.align, imd.lg.entries, k);
    SumOfMultiples(LgRoot(imd), imd.lg.entries[k].start, imd.lg.align);
  }

  /** Small entries are aligned to the small alignment exactly when that is no larger than
      the large root block, on which the small tier hangs. */
  lemma SmallAligned(imd: Imd, k: nat)
    requires Sound(imd) && imd.sm.Some? && k < |imd.sm.value.entries|
    ensures EntryAt(imd, Loc(true, k)) % imd.sm.value.align == 0 <==> imd.sm.value.align <= LgSize(imd)
  {
    hide IsPower, Chained;
    var sm, a := imd.sm.value, imd.sm.value.align;
    var size, root := sm.entries[0].size, SmRoot(imd);
    LimitPower();
    PowerDivides(a, LIMIT_ALIGN, imd.limit);
    SelfMultiple(size);
    PowerDivides(a, size, size);
    EntriesAligned(a, sm.entries, k);
    if a <= LgSize(imd) {
      RootAligned(imd.limit, LgSize(imd), a);
      RootAligned(SmLimit(imd), size, a);
      SumOfMultiples(root, sm.entries[k].start, a);
    } else if EntryAt(imd, Loc(true, k)) % a == 0 {
      // limit - (limit - lgSize - size + start) - size + start is a multiple, but it is lgSize < a
      DifferenceMultiple(imd.limit, EntryAt(imd, Loc(true, k)), a);
      DifferenceMultiple(imd.limit - EntryAt(imd, Loc(true, k)), size, a);
      SumOfMultiples(imd.limit - EntryAt(imd, Loc(true, k)) - size, sm.entries[k].start, a);
      DivUnique(LgSize(imd), 0, LgSize(imd), a);
    }
  }

  /** `imd_region_used`: from the last large entry up to the limit; every entry of both
      tiers, and both root blocks, are in it. */
  lemma RegionUsedCovers(imd: Imd, loc: Loc)
    requires Sound(imd) && HasEntry(imd, loc)
    ensures LgRoot(imd) + Last(imd.lg).start <= EntryAt(imd, loc) && EntryEnd(imd, loc) <= imd.limit
  {
    hide IsPower, Chained;
    if loc.small {
      EntriesApart(imd.lg, LgSize(imd), 0, 1);
      if loc.index > 0 { EntriesApart(imd.sm.value, imd.sm.value.entries[0].size, 0, loc.index); }
    } else if loc.index > 0 {
      EntriesApart(imd.lg, LgSize(imd), 0, loc.index);
    } else if |imd.lg.entries| > 1 {
      EntriesApart(imd.lg, LgSize(imd), 0, |imd.lg.entries| - 1);
    }
  }

  /** Addresses and sizes never change: an entry that a step does not remove is where it was. */
  lemma StepKeepsEntries(imd: Imd, op: Op, loc: Loc)
    requires Sound(imd) && Usable(imd) && Allowed(imd, op) && HasEntry(imd, loc) && HasEntry(Step(imd, op), loc)
    ensures EntryAt(Step(imd, op), loc) == EntryAt(imd, loc) && EntryEnd(Step(imd, op), loc) == EntryEnd(imd, loc)
  {
    hide IsPower, Chained, RoundTo, AlignUp, NewOffset, DataLeft;
  }

  /** The entry that an addition returns is new, has the id and the size asked for, and is
      found again under its id unless an older entry has the same one. */
  lemma AddedEntry(imd: Imd, id: word, size: word)
    requires Sound(imd) && Usable(imd) && Roundable(imd, size)
    ensures var (next, loc) := EntryAdd(imd, id, size);
            loc.Some? ==> && !HasEntry(imd, loc.value) && IsData(next, loc.value)
                          && EntryEnd(next, loc.value) == EntryAt(next, loc.value) + size
                          && (EntryFind(imd, id).None? ==> EntryFind(next, id) == loc)
  {
    hide IsPower, Chained, RoundTo, AlignUp, DataLeft, NewOffset, FindFrom;
    var (next, loc) := EntryAdd(imd, id, size);
    FindFromIs(imd.lg.entries, id, 1);
    FindFromIs(next.lg.entries, id, 1);
    if imd.sm.Some? {
      FindFromIs(imd.sm.value.entries, id, 1);
      FindFromIs(next.sm.value.entries, id, 1);
    }
  }

  /** Which tier an addition lands in: the small one exactly when there is one, unlocked, with
      a free slot and room for the rounded size, and the size is no more than the small
      alignment or a quarter of the room. */
  lemma SmallExact(imd: Imd, id: word, size: word)
    requires Sound(imd) && Usable(imd) && Roundable(imd, size)
    ensures var loc := EntryAdd(imd, id, size).1;
            loc.Some? && loc.value.small <==>
              && imd.sm.Some?
              && var sm := imd.sm.value;
                 && !Locked(sm) && |sm.entries| < sm.maxEntries && RoundTo(size, sm.align) <= Room(sm)
                 && (size <= sm.align || 4 * size <= Room(sm))
  {
    hide IsPower, Chained, RoundTo, AlignUp, AddToRoot;
    if imd.sm.Some? {
      var sm := imd.sm.value;
      AddExact(sm, sm.entries[0].size, id, size);
      LeftExact(sm);
      SmallRoom(imd);
    }
  }

  /** The small tier is limited to its region, far from the end of the word range. */
  lemma SmallRoom(imd: Imd)
    requires Sound(imd) && imd.sm.Some?
    ensures -HALF <= Last(imd.sm.value).start <= 0 && -Budget(imd.sm.value) <= Last(imd.sm.value).start
    ensures Room(imd.sm.value) == Last(imd.sm.value).start + Budget(imd.sm.value)
  {
    hide IsPower, Chained;
    EntriesApart(imd.lg, LgSize(imd), 0, 1);
    var sm := imd.sm.value;
    if |sm.entries| > 1 { EntriesApart(sm, sm.entries[0].size, 0, |sm.entries| - 1); }
  }

  /** Entry `k` of one tier, the root's own left out, has this id. */
  predicate Named(entries: seq<Entry>, k: int, id: word) { 1 <= k < |entries| && entries[k].id == id }

  /** A lookup returns the first entry with the id in the small tier, or else in the large
      one, and nothing exactly if neither has one. */
  lemma FindExact(imd: Imd, id: word)
    ensures match EntryFind(imd, id)
            case None =>
              && (forall k :: !Named(imd.lg.entries, k, id))
              && (imd.sm.Some? ==> forall k :: !Named(imd.sm.value.entries, k, id))
            case Some(loc) =>
              && (loc.small ==> imd.sm.Some?)
              && (loc.small <==> imd.sm.Some? && exists k :: Named(imd.sm.value.entries, k, id))
              && var entries := if loc.small then imd.sm.value.entries else imd.lg.entries;
                 Named(entries, loc.index, id) && forall k | k < loc.index :: !Named(entries, k, id)
  {
    hide FindFrom;
    FindFromIs(imd.lg.entries, id, 1);
    if imd.sm.Some? {
      FindFromIs(imd.sm.value.entries, id, 1);
      if EntryFind(imd, id).Some? && EntryFind(imd, id).value.small {
        assert Named(imd.sm.value.entries, EntryFind(imd, id).value.index, id);
      }
    }
  }

  // ----- ids

  /** No id occurs twice among the entries that can be found. */
  ghost predicate UniqueIds(imd: Imd) {
    && NoRepeats(imd.lg.entries)
    && (imd.sm.Some? ==>
          && NoRepeats(imd.sm.value.entries)
          && forall j, k | 1 <= j < |imd.lg.entries| && 1 <= k < |imd.sm.value.entries| ::
            imd.lg.entries[j].id != imd.sm.value.entries[k].id)
  }

  ghost predicate NoRepeats(entries: seq<Entry>) {
    forall j, k | 1 <= j < k < |entries| :: entries[j].id != entries[k].id
  }

  /** Adding without looking lets an id occur twice: exactly when it occurs already. */
  lemma AddUnique(imd: Imd, id: word, size: word)
    requires Sound(imd) && Usable(imd) && UniqueIds(imd) && EntryAdd(imd, id, size).1.Some?
    ensures UniqueIds(EntryAdd(imd, id, size).0) <==> EntryFind(imd, id).None?
  {
    hide IsPower, Chained, RoundTo, AlignUp, DataLeft, NewOffset, FindFrom;
    var next := EntryAdd(imd, id, size).0;
    FindFromIs(imd.lg.entries, id, 1);
    if imd.sm.Some? { FindFromIs(imd.sm.value.entries, id, 1); }
    if EntryFind(imd, id).Some? {
      var loc := EntryFind(imd, id).value;
      var n := if TrySmall(imd, size) && Add(imd.sm.value, id, size).Some?
               then |imd.sm.value.entries|
               else |imd.lg.entries|;
      Clash(imd, next, loc, n);
    }
  }

  /** The new entry, at position `n` of its tier, has the id of the one at `loc`. */
  lemma Clash(imd: Imd, next: Imd, loc: Loc, n: nat)
    requires HasEntry(imd, loc) && loc.index >= 1
    requires imd.sm.Some? == next.sm.Some? && imd.lg.entries <= next.lg.entries
    requires imd.sm.Some? ==> imd.sm.value.entries <= next.sm.value.entries
    requires var id := if loc.small then imd.sm.value.entries[loc.index].id else imd.lg.entries[loc.index].id;
             (next.sm.Some? && n == |imd.sm.value.entries| >= 1 && n < |next.sm.value.entries|
              && next.sm.value.entries[n].id == id)
             || (n == |imd.lg.entries| >= 1 && n < |next.lg.entries| && next.lg.entries[n].id == id)
    ensures !UniqueIds(next)
  {}

  lemma RemoveUnique(imd: Imd, loc: Loc)
    requires Sound(imd) && Usable(imd) && UniqueIds(imd)
    ensures EntryRemove(imd, loc).Some? ==> UniqueIds(EntryRemove(imd, loc).value)
  {
    hide Packed, IsPower;
  }

  lemma StepUnique(imd: Imd, op: Op)
    requires Sound(imd) && Usable(imd) && UniqueIds(imd) && !op.AddOp?
    ensures UniqueIds(Step(imd, op))
  {
    hide Sound, EntryAdd, EntryFind, UniqueIds, EntryRemove;
    match op
    case FindOrAddOp(id, size) =>
      if EntryFind(imd, id).None? {
        if EntryAdd(imd, id, size).1.Some? { AddUnique(imd, id, size); } else { NotAdded(imd, id, size); }
      }
    case RemoveOp(loc) => RemoveUnique(imd, loc);
    case LimitOp(maxSize) => SameIds(imd, Step(imd, op));
    case LockdownOp => SameIds(imd, Step(imd, op));
  }

  lemma NotAdded(imd: Imd, id: word, size: word)
    requires Usable(imd)
    ensures EntryAdd(imd, id, size).1.None? ==> EntryAdd(imd, id, size).0 == imd
  {
    hide Add;
  }

  lemma SameIds(imd: Imd, next: Imd)
    requires imd.lg.entries == next.lg.entries && imd.sm.Some? == next.sm.Some?
    requires imd.sm.Some? ==> imd.sm.value.entries == next.sm.value.entries
    ensures UniqueIds(imd) ==> UniqueIds(next)
  {}

  /** Ids stay unique over every run that adds only through `imd_entry_find_or_add`. */
  lemma {:induction false} RunUnique(imd: Imd, ops: seq<Op>)
    requires Sound(imd) && UniqueIds(imd) && AllAllowed(imd, ops) && forall k | 0 <= k < |ops| :: !ops[k].AddOp?
    ensures UniqueIds(Run(imd, ops))
    decreases |ops|
  {
    hide Sound, Step, Allowed, UniqueIds;
    if ops != [] {
      StepSound(imd, ops[0]);
      StepUnique(imd, ops[0]);
      RunUnique(Step(imd, ops[0]), ops[1..]);
    }
  }

  /** The entry is there in every state of the run. */
  ghost predicate AlwaysHas(imd: Imd, ops: seq<Op>, loc: Loc)
    requires AllAllowed(imd, ops)
    decreases |ops|
  {
    HasEntry(imd, loc) && (ops == [] || AlwaysHas(Step(imd, ops[0]), ops[1..], loc))
  }

  /** An allocation that is not removed stays where it is, whatever else happens. */
  lemma {:induction false} RunKeepsEntries(imd: Imd, ops: seq<Op>, loc: Loc)
    requires Sound(imd) && AllAllowed(imd, ops) && AlwaysHas(imd, ops, loc)
    ensures HasEntry(imd, loc) && HasEntry(Run(imd, ops), loc)
    ensures EntryAt(Run(imd, ops), loc) == EntryAt(imd, loc) && EntryEnd(Run(imd, ops), loc) == EntryEnd(imd, loc)
    decreases |ops|
  {
    hide Sound, Step, Allowed, HasEntry, EntryAt, EntryEnd;
    if ops != [] {
      StepSound(imd, ops[0]);
      StepKeepsEntries(imd, ops[0], loc);
      RunKeepsEntries(Step(imd, ops[0]), ops[1..], loc);
    }
  }
}
