/** The directory as a program: two handles over one memory, and recovery of both from
    that memory alone. */
module ImdHandle {
  import opened Wrappers
  import opened PowersOfTwo
  import opened ImdRoot
  import opened ImdTiers
  import opened ImdMemory

  /** The memory holds this directory. */
  ghost predicate Stored(m: seq<word>, t: Imd)
    requires Sound(t)
  {
    && 0 < LgRoot(t) && Image(m, t.limit, LgRoot(t), t.lg)
    && (t.sm.Some? ==> 0 < SmRoot(t) && Image(m, SmLimit(t), SmRoot(t), t.sm.value))
  }

  lemma SoundParts(t: Imd)
    requires Sound(t)
    ensures t.lg.entries != [] && Ranged(t.lg) && LgSize(t) == t.lg.entries[0].size && 64 <= LgSize(t) <= LIMIT_ALIGN
    ensures t.sm.Some? ==> |t.lg.entries| >= 2 && t.sm.value.entries != [] && Ranged(t.sm.value)
                           && SmLimit(t) == LgRoot(t) && 64 <= t.sm.value.entries[0].size <= LIMIT_ALIGN
                           && t.lg.entries[1].id == SMALL_ID
  {
    hide IsPower, Chained;
    RangedIfPacked(t.lg);
    if t.sm.Some? { RangedIfPacked(t.sm.value); }
  }

  lemma RangedIfPacked(root: Root)
    requires RootSound(root)
    ensures Ranged(root)
  {
    hide IsPower, Chained;
    forall k | 0 <= k < |root.entries| ensures -HALF <= root.entries[k].start <= 0 {
      if k > 0 { EntriesApart(root, root.entries[0].size, 0, k); }
    }
  }

  /** Writes to one block leave the other as it was. */
  lemma StoredFrame(m: seq<word>, n: seq<word>, limit: nat, r: nat, root: Root, lo: nat, hi: nat)
    requires Image(m, limit, r, root) && SameOutside(m, n, lo, hi) && (hi <= r / 4 || limit / 4 <= lo)
    ensures Image(n, limit, r, root)
  {
    ImageFrame(m, n, limit, r, root);
  }

  /** The address of an entry in its root block. */
  ghost function EntryAddress(t: Imd, loc: Loc): int
    requires HasEntry(t, loc)
  {
    EntryAddr(if loc.small then SmRoot(t) else LgRoot(t), loc.index)
  }

  /** `e` points to the entry at `loc`, or is null if there is none. */
  ghost predicate Points(t: Imd, e: word, loc: Option<Loc>) {
    match loc
    case None => e == 0
    case Some(l) => HasEntry(t, l) && e == EntryAddress(t, l)
  }

  lemma NullPoints(t: Imd)
    ensures Points(t, 0, None)
  {}

  // ----- when a later stage can recover the directory

  /** Nothing reaches below address zero, and the small tier ends on a page. */
  ghost predicate CanRecover(t: Imd)
    requires t.lg.entries != []
  {
    && LgRoot(t) + Last(t.lg).start >= 0 && (t.lg.maxOffset != 0 ==> LgRoot(t) - Budget(t.lg) >= 0)
    && (t.sm.Some? ==> LgSize(t) == LIMIT_ALIGN)
  }

  lemma LargeRecovers(t: Imd)
    requires Sound(t) && 0 < LgRoot(t)
    ensures Recoverable(t.limit, LgRoot(t), t.lg) <==>
              LgRoot(t) + Last(t.lg).start >= 0 && (t.lg.maxOffset != 0 ==> LgRoot(t) - Budget(t.lg) >= 0)
  {
    hide IsPower, Chained, Recoverable;
    RecoverExact(t.limit, LgRoot(t), t.lg);
  }

  /** The small tier hangs on the large root block, so its limit is a multiple of a page
      only if that block is a whole page. */
  lemma SmallRecovers(t: Imd)
    requires Sound(t) && t.sm.Some? && 0 < LgRoot(t) && 0 < SmRoot(t) && LgRoot(t) + Last(t.lg).start >= 0
    ensures Recoverable(SmLimit(t), SmRoot(t), t.sm.value) <==> LgSize(t) == LIMIT_ALIGN
  {
    hide IsPower, Chained, Recoverable;
    RecoverExact(SmLimit(t), SmRoot(t), t.sm.value);
    if |t.lg.entries| > 2 { EntriesApart(t.lg, LgSize(t), 1, |t.lg.entries| - 1); }
    if LgSize(t) == LIMIT_ALIGN {
      DifferenceMultiple(t.limit, LIMIT_ALIGN, LIMIT_ALIGN);
    } else if SmLimit(t) % LIMIT_ALIGN == 0 {
      DifferenceMultiple(t.limit, SmLimit(t), LIMIT_ALIGN);
    }
  }

  /** The small region is the first entry with its id. */
  lemma FindsRegion(t: Imd)
    requires Sound(t) && t.sm.Some?
    ensures Find(t.lg, SMALL_ID) == Some(1)
  {
    hide IsPower, Chained;
  }

  class Handle {
    const lg: Imdr
    const sm: Imdr

    ghost predicate Apart()
      reads this
    {
      lg != sm && lg.mem == sm.mem
    }

    ghost function Contents(): Imd
      reads this, lg, sm
    {
      Imd(lg.limit, lg.root, if sm.r == 0 then None else Some(sm.root))
    }

    ghost predicate Valid()
      reads this, lg, sm, lg.mem
    {
      && Apart() && lg.r != 0 && Sound(Contents()) && Stored(lg.mem[..], Contents())
      && lg.r == LgRoot(Contents()) && (sm.r != 0 ==> sm.limit == SmLimit(Contents()) && sm.r == SmRoot(Contents()))
    }

    /** `imd_handle_init` */
    constructor (mem: array<word>, upperLimit: word)
      ensures lg.mem == mem && fresh(lg) && fresh(sm) && Apart()
      ensures lg.limit == FloorTo(upperLimit, LIMIT_ALIGN) && lg.r == 0 && sm.limit == 0 && sm.r == 0
    {
      lg := new Imdr(mem, upperLimit);
      sm := new Imdr(mem, 0);
    }

    lemma ValidParts()
      requires Valid()
      ensures lg.Valid() && sm.Valid() && Sound(Contents()) && Usable(Contents())
      ensures lg.root.entries[0].size == lg.limit - lg.r
      ensures sm.r != 0 ==> sm.limit == lg.r && sm.root.entries[0].size == sm.limit - sm.r
    {
      hide Image, IsPower, Chained, Ranged;
      SoundParts(Contents());
    }

    /** The handle has the geometry of a stored directory. */
    ghost predicate Over(m: seq<word>, t: Imd)
      reads this, lg, sm
    {
      && Apart() && lg.r != 0 && Sound(t) && Stored(m, t) && t.limit == lg.limit && lg.r == LgRoot(t)
      && (t.sm.Some? <==> sm.r != 0) && (sm.r != 0 ==> sm.limit == SmLimit(t) && sm.r == SmRoot(t))
    }

    /** One of the blocks has changed, in its own words only. */
    ghost predicate OnlyWrote(before: seq<word>, was: Imd, small: bool)
      reads this, lg, sm, lg.mem, sm.mem
    {
      if small then
        sm.r != 0 && sm.Valid() && lg.root == was.lg && SameOutside(before, lg.mem[..], sm.r / 4, sm.limit / 4)
      else
        && lg.Valid() && (sm.r != 0 ==> was.sm.Some? && sm.root == was.sm.value)
        && SameOutside(before, lg.mem[..], lg.r / 4, lg.limit / 4)
    }

    /** The handle is valid again if what it has now is a layout. */
    lemma StillValid(before: seq<word>, was: Imd, small: bool)
      requires Over(before, was)
      requires OnlyWrote(before, was, small)
      requires Sound(Contents()) && LgSize(Contents()) == LgSize(was)
      requires sm.r != 0 ==> sm.root.entries != [] && sm.root.entries[0] == was.sm.value.entries[0]
      ensures Valid()
    {
      hide Image, IsPower, Chained, Ranged, RootSound, Inside;
      SoundParts(Contents());
      SoundParts(was);
      if small {
        StoredFrame(before, lg.mem[..], lg.limit, lg.r, lg.root, sm.r / 4, sm.limit / 4);
        ImageOf(sm);
      } else {
        if sm.r != 0 {
          StoredFrame(before, lg.mem[..], sm.limit, sm.r, sm.root, lg.r / 4, lg.limit / 4);
        }
        ImageOf(lg);
      }
    }

    /** The same, without a claim about the layout: both blocks can still be read. */
    lemma StillIntact(before: seq<word>, was: Imd, small: bool)
      requires Over(before, was)
      requires OnlyWrote(before, was, small)
      ensures Intact()
    {
      hide Image, IsPower, Chained, RootSound, Inside, Ranged;
      SoundParts(was);
      if small {
        StoredFrame(before, lg.mem[..], lg.limit, lg.r, lg.root, sm.r / 4, sm.limit / 4);
      } else if sm.r != 0 {
        StoredFrame(before, lg.mem[..], sm.limit, sm.r, sm.root, lg.r / 4, lg.limit / 4);
      }
    }

    lemma HasSmall()
      requires Valid()
      ensures Sound(Contents()) && Stored(lg.mem[..], Contents()) && Contents().lg.entries != []
      ensures Contents().limit == lg.limit && (Contents().sm.Some? <==> sm.r != 0)
    {
      SoundParts(Contents());
    }

    /** Both root blocks are in memory as the handle has them. */
    ghost predicate Intact()
      reads this, lg, sm, lg.mem, sm.mem
    {
      Apart() && lg.r != 0 && lg.Valid() && sm.Valid()
    }

    lemma IsIntact()
      requires Valid()
      ensures Intact()
    {
      ValidParts();
      hide Sound, Stored;
    }

    static lemma ImageOf(tier: Imdr)
      requires tier.Valid() && tier.r != 0
      ensures Image(tier.mem[..], tier.limit, tier.r, tier.root)
    {}

    lemma IsOver()
      requires Valid()
      ensures Over(lg.mem[..], Contents())
    {}

    // ----- additions

    method AddSmall(id: word, size: word) returns (e: word)
      requires Valid() && sm.r != 0
      modifies sm`root, lg.mem
      ensures Usable(old(Contents())) && Intact() && (Roundable(old(Contents()), size) ==> Valid())
      ensures match Add(old(sm.root), id, size)
              case None => e == 0 && Contents() == old(Contents())
              case Some(n) => e != 0 && Contents() == old(Contents()).(sm := Some(n))
                              && Points(Contents(), e, Some(Loc(true, |old(sm.root).entries|)))
    {
      hide Sound, Image, Add;
      ValidParts();
      IsOver();
      SmallNeedsTwo();
      if Roundable(Contents(), size) { AddSmallSound(Contents(), id, size); }
      ghost var before, was := lg.mem[..], Contents();
      e := sm.EntryAdd(id, size);
      AddGrows(was.sm.value, id, size);
      StillIntact(before, was, true);
      if Roundable(was, size) { StillValid(before, was, true); }
    }

    lemma SmallNeedsTwo()
      requires Valid() && sm.r != 0
      ensures |lg.root.entries| >= 2 && sm.r == SmRoot(Contents())
    {
      hide Image, IsPower, Chained;
    }

    method AddLarge(id: word, size: word) returns (e: word)
      requires Valid()
      modifies lg`root, lg.mem
      ensures Usable(old(Contents())) && Intact() && (Roundable(old(Contents()), size) ==> Valid())
      ensures match Add(old(lg.root), id, size)
              case None => e == 0 && Contents() == old(Contents())
              case Some(n) => e != 0 && Contents() == old(Contents()).(lg := n)
                              && Points(Contents(), e, Some(Loc(false, |old(lg.root).entries|)))
    {
      hide Sound, Image, Add;
      ValidParts();
      IsOver();
      if Roundable(Contents(), size) { AddLargeSound(Contents(), id, size); }
      ghost var before, was := lg.mem[..], Contents();
      e := lg.EntryAdd(id, size);
      AddGrows(was.lg, id, size);
      StillIntact(before, was, false);
      if Roundable(was, size) { StillValid(before, was, false); }
    }

    /** Is the size small enough, for the small tier and what is left in it? */
    method WantsSmall(size: word) returns (yes: bool)
      requires Valid()
      ensures Usable(Contents()) && (yes <==> TrySmall(Contents(), size))
    {
      ValidParts();
      hide Sound, Image, ImdRoot.DataLeft, Stored;
      if sm.r == 0 {
        return false;
      }
      var left := sm.DataLeft();
      var align := sm.Align();
      yes := size <= align || size <= left / 4;
    }

    /** `imd_entry_add`: the address of the new entry, or 0.  The layout is kept if the size
        can be rounded up. */
    method EntryAdd(id: word, size: word) returns (e: word)
      requires Valid()
      modifies lg`root, sm`root, lg.mem
      ensures Usable(old(Contents())) && Intact() && (Roundable(old(Contents()), size) ==> Valid())
      ensures Contents() == ImdTiers.EntryAdd(old(Contents()), id, size).0
      ensures Points(Contents(), e, ImdTiers.EntryAdd(old(Contents()), id, size).1)
    {
      hide Sound, Image, TrySmall, Roundable, Add, Points, Stored, LgRoot, SmRoot, SmLimit;
      NullPoints(Contents());
      var small := WantsSmall(size);
      if small {
        TrySmallNeedsSmall(Contents(), size);
        TrySmallRounds(Contents(), size);
        e := AddSmall(id, size);
        if e != 0 {
          return;
        }
      }
      e := AddLarge(id, size);
    }

    /** A size that wraps when rounded up is too large for the small tier. */
    static lemma TrySmallRounds(t: Imd, size: word)
      requires Sound(t) && Usable(t) && TrySmall(t, size)
      ensures Roundable(t, size)
    {
      hide IsPower, Chained, NumEntries;
    }

    static lemma TrySmallNeedsSmall(t: Imd, size: word)
      requires Usable(t) && TrySmall(t, size)
      ensures t.sm.Some?
    {}

    // ----- lookups

    /** `imd_entry_find`: the address of the entry, or 0. */
    method EntryFind(id: word) returns (e: word)
      requires Valid()
      ensures Points(Contents(), e, ImdTiers.EntryFind(Contents(), id))
    {
      hide Sound, Image, Find, Stored;
      ValidParts();
      if sm.r != 0 { SmallNeedsTwo(); }
      e := sm.EntryFind(id);
      if e == 0 {
        e := lg.EntryFind(id);
      }
    }

    /** `imd_entry_find_or_add` */
    method FindOrAdd(id: word, size: word) returns (e: word)
      requires Valid()
      modifies lg`root, sm`root, lg.mem
      ensures Usable(old(Contents())) && Intact() && (Roundable(old(Contents()), size) ==> Valid())
      ensures Contents() == Step(old(Contents()), FindOrAddOp(id, size))
      ensures var found := ImdTiers.EntryFind(old(Contents()), id);
              Points(Contents(), e, if found.Some? then found else ImdTiers.EntryAdd(old(Contents()), id, size).1)
    {
      hide Sound, Image, Stored, ImdTiers.EntryFind, ImdTiers.EntryAdd, Roundable;
      ValidParts();
      IsIntact();
      e := EntryFind(id);
      PointsNull(Contents(), e, ImdTiers.EntryFind(Contents(), id));
      if e == 0 {
        e := EntryAdd(id, size);
      }
    }

    lemma PointsNull(t: Imd, e: word, loc: Option<Loc>)
      requires Valid() && t == Contents() && Points(t, e, loc)
      ensures e == 0 <==> loc.None?
    {
      if sm.r != 0 { SmallNeedsTwo(); }
      hide Sound, Image, Stored;
    }

    /** Which block the entry at `e` is in (`imd_entry_to_imdr`). */
    method EntryInLarge(e: word, ghost loc: Loc) returns (large: bool)
      requires Valid() && HasEntry(Contents(), loc) && e == EntryAddress(Contents(), loc)
      ensures large <==> !loc.small
    {
      hide Sound, Image, Stored;
      ValidParts();
      if sm.r != 0 { SmallNeedsTwo(); }
      BlocksApart(loc);
      ghost var k;
      large, k := lg.HasEntry(e);
    }

    /** Entries of the two blocks are a whole number of entries apart, the small ones below. */
    lemma BlocksApart(loc: Loc)
      requires Valid() && HasEntry(Contents(), loc)
      ensures (EntryAddress(Contents(), loc) - EntryAddr(lg.r, 0)) % 16 == 0
      ensures loc.small ==> EntryAddress(Contents(), loc) < lg.r
    {
      if loc.small {
        RootSizes();
        SmallNeedsTwo();
        SmallBelow(loc.index);
        Geometry();
        hide Sound, Image, Stored, Valid, LgRoot, SmRoot, SmLimit, IsPower;
        PageMultiple16(sm.root.entries[0].size);
        OffsetWhole(sm.r, lg.r, sm.root.entries[0].size, loc.index);
      } else {
        Geometry();
        hide Sound, Image, Stored, Valid, LgRoot, SmRoot, SmLimit;
        OffsetWhole(lg.r, lg.r, 0, loc.index);
      }
    }

    lemma Geometry()
      requires Valid()
      ensures lg.r == LgRoot(Contents())
      ensures sm.r != 0 ==> sm.limit == lg.r && sm.root.entries != [] && sm.r == lg.r - sm.root.entries[0].size
    {
      ValidParts();
      hide Image, IsPower, Chained, Sound, Stored;
      if sm.r != 0 { RootSizes(); }
    }

    static lemma OffsetWhole(a: int, b: int, size: int, k: int)
      requires a == b - size && size % 16 == 0
      ensures (EntryAddr(a, k) - EntryAddr(b, 0)) % 16 == 0
    {
      ExactQuotient(size, 16);
      assert EntryAddr(a, k) - EntryAddr(b, 0) == (k - size / 16) * 16;
      MultipleOf(k - size / 16, 16);
    }

    lemma RootSizes()
      requires Valid() && sm.r != 0
      ensures sm.root.entries != [] && IsPower(sm.root.entries[0].size) && 64 <= sm.root.entries[0].size
    {
      hide Chained, IsPower, Image;
    }

    lemma SmallBelow(k: nat)
      requires Valid() && sm.r != 0 && k < |sm.root.entries|
      ensures EntryAddr(sm.r, k) + 24 <= sm.limit
    {
      hide Chained, IsPower, HeadImage, EntriesImage, Sound;
    }

    /** `imd_entry_at`, in 32-bit addresses. */
    method EntryAt(e: word, ghost loc: Loc) returns (a: word)
      requires Valid() && HasEntry(Contents(), loc) && e == EntryAddress(Contents(), loc)
      ensures a == Word(ImdTiers.EntryAt(Contents(), loc))
    {
      hide Sound, Image, Stored;
      ValidParts();
      if sm.r != 0 { SmallNeedsTwo(); }
      var large := EntryInLarge(e, loc);
      if large {
        a := lg.EntryAt(e, loc.index);
      } else {
        a := sm.EntryAt(e, loc.index);
      }
    }

    /** `imd_region_used` */
    method RegionUsed() returns (base: word, size: word)
      requires Valid()
      ensures base == Word(LgRoot(Contents()) + Last(lg.root).start) && size == Word(lg.limit - base)
    {
      hide Sound, Image, Stored;
      ValidParts();
      var start := lg.LastStart();
      base := Word(lg.r + start);
      size := Word(lg.limit - base);
    }

    // ----- removal, limit, lockdown

    /** `imd_entry_remove`, for any entry that a lookup can return.  The layout is kept if it
        is one that a caller has added. */
    method EntryRemove(e: word, ghost loc: Loc) returns (ok: bool)
      requires Valid() && HasEntry(Contents(), loc) && loc.index >= 1 && e == EntryAddress(Contents(), loc)
      modifies lg`root, sm`root, lg.mem
      ensures Usable(old(Contents())) && Intact() && (IsData(old(Contents()), loc) ==> Valid())
      ensures ok <==> ImdTiers.EntryRemove(old(Contents()), loc).Some?
      ensures Contents() == Step(old(Contents()), RemoveOp(loc))
    {
      hide Sound, Image, Stored;
      ValidParts();
      IsOver();
      if sm.r != 0 { SmallNeedsTwo(); }
      if IsData(Contents(), loc) { RemoveSound(Contents(), loc); }
      ghost var before, was := lg.mem[..], Contents();
      var large := EntryInLarge(e, loc);
      if large {
        ok := lg.EntryRemove(e);
      } else {
        ok := sm.EntryRemove(e);
      }
      StillIntact(before, was, !large);
      if IsData(was, loc) { StillValid(before, was, !large); }
    }

    /** `imd_limit_size`.  The layout is kept if the limit is not below what is in use. */
    method LimitSize(maxSize: word) returns (ok: bool)
      requires Valid()
      modifies lg`root, lg.mem
      ensures Usable(old(Contents())) && Intact() && (Allowed(old(Contents()), LimitOp(maxSize)) ==> Valid())
      ensures ok <==> LgSize(old(Contents())) <= maxSize
      ensures Contents() == Step(old(Contents()), LimitOp(maxSize))
    {
      hide Sound, Image, Stored, Allowed;
      ValidParts();
      IsOver();
      if Allowed(Contents(), LimitOp(maxSize)) { ImdTiers.LimitSound(Contents(), maxSize); }
      ghost var before, was := lg.mem[..], Contents();
      ok := lg.LimitSize(maxSize);
      StillIntact(before, was, false);
      if Allowed(was, LimitOp(maxSize)) { StillValid(before, was, false); }
    }

    /** `imd_lockdown` */
    method Lockdown()
      requires Valid()
      modifies lg`root, sm`root, lg.mem
      ensures Valid() && Usable(old(Contents())) && Contents() == Step(old(Contents()), LockdownOp)
    {
      LockOne(false);
      if sm.r != 0 {
        LockOne(true);
      }
    }

    method LockOne(small: bool)
      requires Valid() && (small ==> sm.r != 0)
      modifies lg`root, sm`root, lg.mem
      ensures Valid() && Usable(old(Contents()))
      ensures Contents() == if small
                            then old(Contents()).(sm := Some(Lock(old(sm.root))))
                            else old(Contents()).(lg := Lock(old(lg.root)))
    {
      hide Sound, Image, Stored;
      ValidParts();
      IsOver();
      LockTierSound(Contents(), small);
      ghost var before, was := lg.mem[..], Contents();
      if small {
        sm.Lockdown();
      } else {
        lg.Lockdown();
      }
      StillValid(before, was, small);
    }

    // ----- creation and recovery

    /** `imd_create_tiered_empty`.  The caller provides powers of two, root blocks with room
        for entries, and memory below the limit for both tiers. */
    method CreateTieredEmpty(lgSize: word, lgAlign: word, smSize: word, smAlign: word) returns (ok: bool)
      requires Apart() && lg.r == 0 && sm.r == 0 && lg.limit % LIMIT_ALIGN == 0 && lg.limit / 4 <= lg.mem.Length
      requires IsPower(lgSize) && IsPower(lgAlign) && IsPower(smSize) && IsPower(smAlign) && 64 <= lgSize
               && 64 <= smSize
      requires lgAlign > 0 && (lg.limit == 0 || lgSize + SmallRegion(lgAlign, smSize, smAlign) < lg.limit)
      modifies lg, sm, lg.mem
      ensures ok <==> Create(old(lg.limit), lgSize, lgAlign, smSize, smAlign).Some?
      ensures ok ==> Valid() && Contents() == Create(old(lg.limit), lgSize, lgAlign, smSize, smAlign).value
      ensures ok ==> lg.limit == old(lg.limit) && sm.r != 0
      ensures !ok ==> lg.r == 0 && sm.r == 0
    {
      FactorOfMultiple(lg.limit, 1024, 4);
      hide Sound, Image, SmallRegion, IsPower, ImdRoot.LimitSize, Add, EmptyRoot;
      ok := lg.CreateEmpty(lgSize, lgAlign);
      if ok {
        ok := CreateSmall(lgSize, lgAlign, smSize, smAlign);
        if !ok {
          Reset();
        }
      }
    }

    /** The large entry for the small tier, and the small root block at its end. */
    method CreateSmall(lgSize: word, lgAlign: word, smSize: word, smAlign: word) returns (ok: bool)
      requires Apart() && sm.r == 0 && lg.Valid() && lg.r != 0 && lg.limit % LIMIT_ALIGN == 0
               && lg.limit / 4 <= lg.mem.Length
      requires IsPower(lgSize) && IsPower(lgAlign) && IsPower(smSize) && IsPower(smAlign) && 64 <= lgSize
               && 64 <= smSize
      requires lgAlign > 0 && CreateOk(lgSize, lgAlign) && lgSize + SmallRegion(lgAlign, smSize, smAlign) < lg.limit
      requires lg.r == lg.limit - lgSize && lg.root == EmptyRoot(lgSize, lgAlign)
      modifies lg`root, sm`limit, sm`r, sm`root, lg.mem
      ensures ok <==> Create(lg.limit, lgSize, lgAlign, smSize, smAlign).Some?
      ensures ok ==> Valid() && sm.r != 0 && Contents() == Create(lg.limit, lgSize, lgAlign, smSize, smAlign).value
      ensures !ok ==> sm.r == 0
    {
      hide Sound, Image, SmallRegion, IsPower, ImdRoot.LimitSize, Add, EmptyRoot, Create, Stored, IsNew, LgRoot,
           SmLimit, SmRoot, Word;
      CreateFails(lg.limit, lgSize, lgAlign, smSize, smAlign);
      ImageAligned(lg);
      if CreateOk(smSize, smAlign) { CreateIs(lg.limit, lgSize, lgAlign, smSize, smAlign); }
      if CreateOk(smSize, smAlign) {
        NewPlaces(Create(lg.limit, lgSize, lgAlign, smSize, smAlign).value, lg.limit, lgSize, smSize,
                  SmallRegion(lgAlign, smSize, smAlign));
      }
      var region := SmallRegion(lgAlign, smSize, smAlign);
      var end;
      ok, end := AddRegion(region);
      if !ok {
        return;
      }
      sm.limit := end;
      ok := MakeSmall(region, smSize, smAlign, Create(lg.limit, lgSize, lgAlign, smSize, smAlign));
    }

    /** The large tier and the region are in place for the small tier of `t`. */
    ghost predicate Ready(t: Imd, region: word, smSize: word, smAlign: word)
      reads this, lg, sm, lg.mem
    {
      && Apart() && lg.r != 0 && lg.Valid() && lg.limit / 4 <= lg.mem.Length && lg.r % 4 == 0
         && sm.limit == lg.r <= lg.limit
      && Sound(t) && t.sm.Some? && lg.root == t.lg && lg.limit == t.limit && |t.lg.entries| >= 2 && lg.r == LgRoot(t)
      && t.sm.value.entries != [] && 0 < SmRoot(t) == lg.r - smSize
      && ImdRoot.LimitSize(EmptyRoot(smSize, smAlign), smSize, region) == t.sm
    }

    method MakeSmall(region: word, smSize: word, smAlign: word, ghost t: Option<Imd>) returns (ok: bool)
      requires IsPower(smSize) && IsPower(smAlign) && 64 <= smSize && sm.r == 0
      requires CreateOk(smSize, smAlign) ==> t.Some? && sm.limit != 0 && Ready(t.value, region, smSize, smAlign)
      modifies sm`r, sm`root, lg.mem, sm.mem
      ensures ok <==> CreateOk(smSize, smAlign) && sm.limit != 0
      ensures ok ==> Valid() && Contents() == t.value
      ensures ok <==> sm.r != 0
    {
      hide Sound, Image, IsPower, ImdRoot.LimitSize, EmptyRoot, LgRoot, SmRoot;
      EmptyHas(smSize, smAlign);
      ghost var before := lg.mem[..];
      ok := sm.CreateEmpty(smSize, smAlign);
      if ok {
        StoredFrame(before, lg.mem[..], lg.limit, lg.r, lg.root, sm.r / 4, sm.limit / 4);
        ok := LimitSmall(region, t.value);
      }
    }

    /** The large entry for the small tier, and the address where it ends. */
    method AddRegion(region: word) returns (ok: bool, end: word)
      requires lg.Valid() && lg.r != 0 && |lg.root.entries| == 1 && lg.root.align > 0
      modifies lg`root, lg.mem
      ensures lg.Valid() && (ok <==> Add(old(lg.root), SMALL_ID, region).Some?)
      ensures ok ==> Some(lg.root) == Add(old(lg.root), SMALL_ID, region) && |lg.root.entries| == 2
      ensures ok ==> end == Word(Word(lg.r + lg.root.entries[1].start) + region)
    {
      AddGrows(lg.root, SMALL_ID, region);
      hide Image, Add, Word, Ranged;
      end := 0;
      ghost var added := Add(lg.root, SMALL_ID, region);
      var e := lg.EntryAdd(SMALL_ID, region);
      ok := e != 0;
      assert ok <==> added.Some?;
      if ok {
        var start: int := lg.EntryAt(e, 1);
        end := Word(start + region);
      }
    }

    static lemma AddGrows(root: Root, id: word, size: word)
      requires root.entries != [] && root.align > 0
      ensures Add(root, id, size).Some? ==>
                root.entries < Add(root, id, size).value.entries
                  && |Add(root, id, size).value.entries| == |root.entries| + 1
    {
      hide NewOffset;
    }

    /** Where the large entry at `e` ends. */
    method RegionEnd(e: word) returns (end: word)
      requires lg.Valid() && lg.r != 0 && |lg.root.entries| >= 2 && e == EntryAddr(lg.r, 1)
      ensures end == Word(Word(lg.r + lg.root.entries[1].start) + lg.root.entries[1].size)
    {
      hide Image, Word;
      var start: int := lg.EntryAt(e, 1);
      var size: int := lg.EntrySize(e, 1);
      end := Word(start + size);
    }

    /** The last step: the small tier is limited to its region. */
    method LimitSmall(region: word, ghost t: Imd) returns (ok: bool)
      requires Apart() && lg.r != 0 && lg.Valid() && sm.r != 0 && sm.Valid() && sm.root.entries != []
      requires Sound(t) && t.sm.Some? && lg.root == t.lg && lg.limit == t.limit && lg.r == LgRoot(t) && sm.limit == lg.r
      requires sm.r == SmRoot(t) && sm.root.entries[0].size == sm.limit - sm.r && 0 < SmRoot(t)
      requires ImdRoot.LimitSize(sm.root, sm.root.entries[0].size, region) == t.sm
      modifies sm`root, lg.mem
      ensures ok && Valid() && Contents() == t
    {
      hide Sound, Image, ImdRoot.LimitSize;
      SoundParts(t);
      ImageOf(lg);
      ghost var before := lg.mem[..];
      ok := sm.LimitSize(region);
      StoredFrame(before, lg.mem[..], lg.limit, lg.r, lg.root, sm.r / 4, sm.limit / 4);
      ImageOf(sm);
      Assembled(t);
    }

    static lemma CreateFails(limit: word, lgSize: word, lgAlign: word, smSize: word, smAlign: word)
      requires lgAlign > 0
      ensures |EmptyRoot(lgSize, lgAlign).entries| == 1
      ensures Add(EmptyRoot(lgSize, lgAlign), SMALL_ID, SmallRegion(lgAlign, smSize, smAlign)).None? ==>
                Create(limit, lgSize, lgAlign, smSize, smAlign).None?
      ensures Add(EmptyRoot(lgSize, lgAlign), SMALL_ID, SmallRegion(lgAlign, smSize, smAlign)).Some? ==>
                |Add(EmptyRoot(lgSize, lgAlign), SMALL_ID, SmallRegion(lgAlign, smSize, smAlign)).value.entries| == 2
      ensures !CreateOk(smSize, smAlign) ==> Create(limit, lgSize, lgAlign, smSize, smAlign).None?
    {
      hide SmallRegion, NewOffset;
    }

    /** A directory with nothing in it but the small tier. */
    static ghost predicate IsNew(t: Imd, limit: word, lgSize: word, smSize: word, region: word) {
      && t.limit == limit && |t.lg.entries| == 2 && t.sm.Some? && t.sm.value.entries == [Entry(0, smSize, ROOT_ID)]
      && t.lg.entries[0] == Entry(0, lgSize, ROOT_ID)
      && t.lg.entries[1].start + region == 0 && t.lg.entries[1].size == region && t.lg.entries[1].id == SMALL_ID
    }

    /** The small root goes just below the large one. */
    static lemma NewPlaces(t: Imd, limit: word, lgSize: word, smSize: word, region: word)
      requires IsNew(t, limit, lgSize, smSize, region) && lgSize + region < limit && smSize < region
      ensures t.limit == limit && |t.lg.entries| == 2 && LgRoot(t) == SmLimit(t) == limit - lgSize > smSize
      ensures t.sm.Some? && t.sm.value.entries != [] && SmRoot(t) == limit - lgSize - smSize > 0
      ensures Word(Word(LgRoot(t) + t.lg.entries[1].start) + region) == LgRoot(t)
    {}

    /** With usable sizes, creation succeeds. */
    static lemma CreateIs(limit: word, lgSize: word, lgAlign: word, smSize: word, smAlign: word)
      requires limit % LIMIT_ALIGN == 0
      requires IsPower(lgSize) && IsPower(lgAlign) && IsPower(smSize) && IsPower(smAlign) && 64 <= lgSize
               && 64 <= smSize
      requires lgAlign > 0 && CreateOk(lgSize, lgAlign) && CreateOk(smSize, smAlign)
      requires lgSize + SmallRegion(lgAlign, smSize, smAlign) < limit
      ensures var region := SmallRegion(lgAlign, smSize, smAlign);
              var c := Create(limit, lgSize, lgAlign, smSize, smAlign);
              && c.Some? && Sound(c.value) && smSize < region && IsNew(c.value, limit, lgSize, smSize, region)
              && Add(EmptyRoot(lgSize, lgAlign), SMALL_ID, region) == Some(c.value.lg)
              && ImdRoot.LimitSize(EmptyRoot(smSize, smAlign), smSize, region) == c.value.sm
    {
      SmallPositive(smSize, smAlign);
      RegionIs(lgAlign, smSize, smAlign);
      EmptyPacked(lgSize, lgAlign);
      CreateSound(limit, lgSize, lgAlign, smSize, smAlign);
      hide Sound, IsPower, SmallRegion, NumEntries, Add, AlignUp, RoundTo, Packed, ImdRoot.LimitSize, EmptyRoot,
           Create;
      var region := SmallRegion(lgAlign, smSize, smAlign);
      RegionAdded(lgSize, lgAlign, region);
      SmallLimited(smSize, smAlign, region);
      CreateSteps(limit, lgSize, lgAlign, smSize, smAlign, region);
    }

    /** What creation comes to, once each step succeeds. */
    static lemma CreateSteps(limit: word, lgSize: word, lgAlign: word, smSize: word, smAlign: word, region: word)
      requires lgAlign > 0 && CreateOk(lgSize, lgAlign) && CreateOk(smSize, smAlign) && lgSize + region < limit
      requires region == SmallRegion(lgAlign, smSize, smAlign)
      requires var lg := Add(EmptyRoot(lgSize, lgAlign), SMALL_ID, region);
               lg == Some(Append(EmptyRoot(lgSize, lgAlign), Entry(-(region as int), region, SMALL_ID)))
      requires ImdRoot.LimitSize(EmptyRoot(smSize, smAlign), smSize, region).Some?
      ensures Create(limit, lgSize, lgAlign, smSize, smAlign)
           == Some(Imd(limit, Append(EmptyRoot(lgSize, lgAlign), Entry(-(region as int), region, SMALL_ID)),
                       ImdRoot.LimitSize(EmptyRoot(smSize, smAlign), smSize, region)))
    {
      hide SmallRegion, Add, ImdRoot.LimitSize, EmptyRoot, Word;
      InWord(limit - lgSize);
      assert limit - lgSize + -(region as int) + region == limit - lgSize;
    }

    static lemma SmallLimited(smSize: word, smAlign: word, region: word)
      requires smSize < region
      ensures var sm := ImdRoot.LimitSize(EmptyRoot(smSize, smAlign), smSize, region);
              sm.Some? && sm.value.entries == [Entry(0, smSize, ROOT_ID)]
    {}

    static lemma RegionAdded(lgSize: word, lgAlign: word, region: word)
      requires 64 <= lgSize <= LIMIT_ALIGN && 0 < lgAlign && Packed(EmptyRoot(lgSize, lgAlign), lgSize)
      requires region + lgAlign <= WORD && RoundTo(region, lgAlign) == region && region <= HALF
      ensures Add(EmptyRoot(lgSize, lgAlign), SMALL_ID, region)
           == Some(Append(EmptyRoot(lgSize, lgAlign), Entry(-(region as int), region, SMALL_ID)))
    {
      hide RoundTo, AlignUp, Signed, DataLeft, NewOffset, IsPower, Chained, Packed;
      NumEntriesBounds(lgSize);
      AddExact(EmptyRoot(lgSize, lgAlign), lgSize, SMALL_ID, region);
      hide Packed, AddToRoot, RoundTo, NumEntries, Word, AlignUp;
    }

    static lemma EmptyHas(size: word, align: word)
      ensures EmptyRoot(size, align).entries == [Entry(0, size, ROOT_ID)]
    {}

    static lemma ImageAligned(tier: Imdr)
      requires tier.Valid() && tier.r != 0
      ensures tier.r % 4 == 0
    {
      hide EntriesImage, HeadImage, Ranged;
    }

    static lemma SmallPositive(size: word, align: word)
      requires IsPower(align)
      ensures align > 0
    {}

    static lemma PageMultiple16(size: word)
      requires IsPower(size) && 64 <= size
      ensures size % 16 == 0
    {
      var p: nat :| size == Pow2(p);
      SmallPowers();
      if p < 4 { Pow2Monotone(p, 4); }
      assert Pow2(4) == 16;
      Pow2Add(p - 4, 4);
      MultipleOf(Pow2(p - 4), 16);
    }

    /** `imd_handle_init` on a handle whose limit is already rounded. */
    method Reset()
      requires Apart()
      modifies lg`limit, lg`r, sm`limit, sm`r
      ensures lg.limit == FloorTo(old(lg.limit), LIMIT_ALIGN) && lg.r == 0 && sm.limit == 0 && sm.r == 0
    {
      lg.limit, lg.r := FloorTo(lg.limit, LIMIT_ALIGN), 0;
      sm.limit, sm.r := 0, 0;
    }

    /** `imd_recover`: from the limit and the memory alone, a later stage gets back the
        directory `t` that is stored there, exactly when `CanRecover`. */
    method Recover(ghost t: Imd) returns (ok: bool)
      requires Apart() && lg.r == 0 && sm.r == 0 && sm.limit == 0
      requires Sound(t) && t.limit == lg.limit && Stored(lg.mem[..], t)
      requires t.sm.None? ==> Find(t.lg, SMALL_ID).None?
      modifies lg`limit, lg`r, lg`root, sm`limit, sm`r, sm`root
      ensures t.lg.entries != [] && (ok <==> CanRecover(t))
      ensures ok ==> Valid() && Contents() == t
      ensures !ok ==> lg.r == 0 && sm.r == 0
    {
      hide Sound, Stored, Image, Recoverable, Find, LgRoot, Ranged, Last, Budget;
      StoredParts(lg.mem[..], t);
      LargeRecovers(t);
      if t.sm.Some? { FindsRegion(t); }
      ok := lg.Recover(LgRoot(t), t.lg);
      if !ok {
        return;
      }
      var e := lg.EntryFind(SMALL_ID);
      if e != 0 {
        ok := RecoverSmall(e, t);
      }
      if ok {
        Assembled(t);
      } else {
        Reset();
      }
    }

    /** The small tier is where the first large entry ends. */
    method RecoverSmall(e: word, ghost t: Imd) returns (ok: bool)
      requires Apart() && sm.r == 0 && lg.Valid() && Sound(t) && t.sm.Some? && Stored(lg.mem[..], t)
      requires lg.r == LgRoot(t) && lg.root == t.lg && lg.limit == t.limit && e == EntryAddr(lg.r, 1)
      requires LgRoot(t) + Last(t.lg).start >= 0
      modifies sm`limit, sm`r, sm`root
      ensures ok <==> LgSize(t) == LIMIT_ALIGN
      ensures ok ==> sm.limit == SmLimit(t) && sm.r == SmRoot(t) && sm.root == t.sm.value
    {
      hide Sound, Stored, Image, Recoverable, Ranged, Last, SmRoot, Word, LgRoot, SmLimit;
      StoredParts(lg.mem[..], t);
      SmallRecovers(t);
      AddStart(t);
      sm.limit := RegionEnd(e);
      ok := RecoverAt(t);
    }

    method RecoverAt(ghost t: Imd) returns (ok: bool)
      requires Apart() && Sound(t) && t.sm.Some? && Stored(lg.mem[..], t) && sm.limit == SmLimit(t)
      modifies sm`r, sm`root
      ensures ok <==> Recoverable(SmLimit(t), SmRoot(t), t.sm.value)
      ensures ok ==> sm.r == SmRoot(t) && sm.root == t.sm.value
      ensures !ok ==> sm.r == old(sm.r)
    {
      hide Sound, Stored, Image, Recoverable, Ranged, LgRoot, SmLimit, SmRoot;
      StoredParts(lg.mem[..], t);
      ok := sm.Recover(SmRoot(t), t.sm.value);
    }

    /** `imd_handle_init_partial_recovery`: nothing is checked, so a stored directory is
        always found again. */
    method PartialRecover(ghost t: Imd)
      requires Apart() && sm.r == 0 && lg.limit % LIMIT_ALIGN == 0
      requires Sound(t) && t.limit == lg.limit && Stored(lg.mem[..], t)
      requires t.sm.None? ==> Find(t.lg, SMALL_ID).None?
      modifies lg`limit, lg`r, lg`root, sm`limit, sm`r, sm`root
      ensures Valid() && Contents() == t
    {
      hide Sound, Stored, Image, Find, LgRoot, SmLimit, SmRoot, Ranged, Last, Word, FloorTo;
      StoredParts(lg.mem[..], t);
      MultipleFloor(lg.limit);
      if t.sm.Some? {
        FindsRegion(t);
        AddStart(t);
      }
      Reset();
      lg.Follow(LgRoot(t), t.lg);
      var e := lg.EntryFind(SMALL_ID);
      if e != 0 {
        sm.limit := RegionEnd(e);
        sm.Follow(SmRoot(t), t.sm.value);
      }
      Assembled(t);
    }

    static lemma MultipleFloor(limit: word)
      requires limit % LIMIT_ALIGN == 0
      ensures FloorTo(limit, LIMIT_ALIGN) == limit
    {
      ExactQuotient(limit, LIMIT_ALIGN);
    }

    static lemma AddStart(t: Imd)
      requires Sound(t) && t.sm.Some? && 0 < LgRoot(t)
      ensures |t.lg.entries| >= 2
              && Word(Word(LgRoot(t) + t.lg.entries[1].start) + t.lg.entries[1].size) == SmLimit(t) == LgRoot(t)
    {
      hide IsPower, Chained;
    }

    /** What a stored directory gives to the recovery of its blocks. */
    static lemma StoredParts(m: seq<word>, t: Imd)
      requires Sound(t) && Stored(m, t)
      ensures t.lg.entries != [] && LgSize(t) == t.lg.entries[0].size && Ranged(t.lg) && |t.lg.entries| >= 1
      ensures 0 < LgRoot(t) < WORD && t.limit % 4 == 0 && t.limit / 4 <= |m| && 8 <= t.limit
      ensures m[t.limit / 4 - 2] == ROOT_PTR_MAGIC && Image(m, t.limit, LgRoot(t), t.lg)
      ensures t.sm.Some? ==>
                && |t.lg.entries| >= 2 && t.sm.value.entries != [] && Ranged(t.sm.value) && 0 < SmRoot(t) < WORD
                && SmLimit(t) == LgRoot(t) && SmLimit(t) % 4 == 0 && 8 <= SmLimit(t) && SmLimit(t) / 4 <= |m|
                && m[SmLimit(t) / 4 - 2] == ROOT_PTR_MAGIC && Image(m, SmLimit(t), SmRoot(t), t.sm.value)
    {
      SoundParts(t);
      hide IsPower, Chained, Packed, EntriesImage, Ranged, RootSound;
    }

    lemma Assembled(t: Imd)
      requires Apart() && lg.r != 0 && Sound(t) && Stored(lg.mem[..], t) && lg.r == LgRoot(t) && lg.root == t.lg
               && lg.limit == t.limit
      requires t.sm.None? ==> sm.r == 0
      requires t.sm.Some? ==> sm.r != 0 && sm.limit == SmLimit(t) && sm.r == SmRoot(t) && sm.root == t.sm.value
      ensures Valid() && Contents() == t
    {
      hide Sound, Stored;
    }

    // ----- whole runs

    /** One operation; an entry to remove is looked up by its place. */
    method Do(op: Op)
      requires Valid() && Usable(Contents()) && Allowed(Contents(), op)
      modifies lg`root, sm`root, lg.mem
      ensures Valid() && Contents() == Step(old(Contents()), op)
    {
      hide Sound, Image, Stored, Roundable, ImdTiers.EntryAdd, ImdTiers.EntryFind, ImdTiers.EntryRemove;
      var e;
      match op
      case AddOp(id, size) => e := EntryAdd(id, size);
      case FindOrAddOp(id, size) => e := FindOrAdd(id, size);
      case RemoveOp(loc) => RemoveAt(loc);
      case LimitOp(maxSize) => var ok := LimitSize(maxSize);
      case LockdownOp => Lockdown();
    }

    method RemoveAt(loc: Loc)
      requires Valid() && Usable(Contents()) && Allowed(Contents(), RemoveOp(loc))
      modifies lg`root, sm`root, lg.mem
      ensures Valid() && Contents() == Step(old(Contents()), RemoveOp(loc))
    {
      ValidParts();
      if sm.r != 0 { SmallNeedsTwo(); }
      Geometry();
      hide Sound, Image, Stored;
      var e;
      if loc.small {
        e := sm.EntryAddress(loc.index);
      } else {
        e := lg.EntryAddress(loc.index);
      }
      if e != 0 {
        var ok := EntryRemove(e, loc);
      }
    }

    method DoAll(ops: seq<Op>)
      requires Valid() && AllAllowed(Contents(), ops)
      modifies lg`root, sm`root, lg.mem
      ensures Valid() && Contents() == Run(old(Contents()), ops)
    {
      hide Valid, Step, Allowed;
      for i := 0 to |ops|
        invariant Valid() && AllAllowed(Contents(), ops[i..]) && Run(Contents(), ops[i..]) == Run(old(Contents()), ops)
      {
        assert ops[i..][0] == ops[i] && ops[i..][1..] == ops[i + 1..];
        Do(ops[i]);
      }
    }
  }

  /** The whole life of the directory: it is created, any run of allowed operations follows,
      and a later stage, knowing only the upper limit, recovers it from memory.  That works
      exactly when `CanRecover` holds of the result, and then gives back the same directory:
      every lookup, size and address agrees. */
  method CreateRunRecover(mem: array<word>, upperLimit: word, lgSize: word, lgAlign: word, smSize: word,
                          smAlign: word, ops: seq<Op>)
    returns (created: bool, recovered: bool, later: Handle)
    requires FloorTo(upperLimit, LIMIT_ALIGN) / 4 <= mem.Length
    requires IsPower(lgSize) && IsPower(lgAlign) && IsPower(smSize) && IsPower(smAlign) && 64 <= lgSize
             && 64 <= smSize && lgAlign > 0
    requires var limit := FloorTo(upperLimit, LIMIT_ALIGN);
             && (limit == 0 || lgSize + SmallRegion(lgAlign, smSize, smAlign) < limit)
             && (var c := Create(limit, lgSize, lgAlign, smSize, smAlign); c.Some? ==> AllAllowed(c.value, ops))
    modifies mem
    ensures var c := Create(FloorTo(upperLimit, LIMIT_ALIGN), lgSize, lgAlign, smSize, smAlign);
            && (created <==> c.Some?)
            && (created ==>
                  var t := Run(c.value, ops);
                  && t.lg.entries != [] && (recovered <==> CanRecover(t))
                  && (recovered ==> later.Valid() && later.Contents() == t))
  {
    hide Handle.Valid, Sound, Stored, Create, SmallRegion, IsPower, Run, AllAllowed, CanRecover, FloorTo;
    FloorIsMultiple(upperLimit);
    var h := new Handle(mem, upperLimit);
    later := new Handle(mem, upperLimit);
    recovered := false;
    created := h.CreateTieredEmpty(lgSize, lgAlign, smSize, smAlign);
    if created {
      h.DoAll(ops);
      h.HasSmall();
      recovered := later.Recover(h.Contents());
    }
  }

  lemma FloorIsMultiple(x: word)
    ensures FloorTo(x, LIMIT_ALIGN) % LIMIT_ALIGN == 0 && 0 <= FloorTo(x, LIMIT_ALIGN) < WORD
  {
    FloorToSmaller(x, LIMIT_ALIGN);
    MultipleOf(x / LIMIT_ALIGN, LIMIT_ALIGN);
  }
}
