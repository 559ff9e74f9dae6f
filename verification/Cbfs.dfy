/** The CBFS walk over chained region devices: files start at multiples of 64, and the gaps
    between them are skipped. */
module Cbfs {
  import opened Wrappers
  import opened PowersOfTwo

  type byte = b: int | 0 <= b < 256

  const WORD: nat := 0x1_0000_0000
  const ALIGNMENT: nat := 64
  const HEADER: nat := 24
  /** "LARCHIVE" */
  const MAGIC: seq<byte> := [0x4c, 0x41, 0x52, 0x43, 0x48, 0x49, 0x56, 0x45]

  // ----- regions

  /** Offsets are absolute, in the root device; sizes and offsets are 32 bits wide. */
  datatype Region = Region(offset: nat, size: nat)

  function RegionEnd(r: Region): nat { (r.size + r.offset) % WORD }

  predicate IsSubregion(p: Region, c: Region) {
    !(c.offset < p.offset) && !(c.size > p.size) && !(RegionEnd(c) > RegionEnd(p))
  }

  /** `rdev_chain`, and the check before every access. */
  function Chain(parent: Region, offset: nat, size: nat): Option<Region> {
    var c := Region((offset + parent.offset) % WORD, size);
    if IsSubregion(parent, c) then Some(c) else None
  }

  /** `rdev_relative_offset`; -1 if the region is not a part. */
  function RelativeOffset(p: Region, c: Region): int {
    if IsSubregion(p, c) then c.offset - p.offset else -1
  }

  /** `rdev_readat` on a memory of these bytes. */
  function ReadAt(flash: seq<byte>, r: Region, offset: nat, size: nat): (bytes: Option<seq<byte>>)
    ensures bytes.Some? ==> |bytes.value| == size
  {
    match Chain(r, offset, size)
    case None => None
    case Some(c) => if c.offset + c.size <= |flash| then Some(flash[c.offset..c.offset + c.size]) else None
  }

  /** A part of a region that does not wrap. */
  lemma ChainInside(r: Region, offset: nat, size: nat)
    requires r.offset + r.size < WORD && offset + size <= r.size
    ensures Chain(r, offset, size) == Some(Region(r.offset + offset, size))
  {}

  /** Where nothing wraps around, exactly the parts of a region can be chained. */
  lemma ChainExact(r: Region, offset: nat, size: nat)
    requires r.offset + r.size < WORD && r.offset + offset + size < WORD
    ensures Chain(r, offset, size).Some? <==> offset + size <= r.size
  {}

  lemma RelativeInside(p: Region, c: Region)
    requires p.offset + p.size < WORD && p.offset <= c.offset && c.offset + c.size <= p.offset + p.size
    ensures RelativeOffset(p, c) == c.offset - p.offset
  {}

  /** A read inside a region that does not wrap and lies in the memory. */
  lemma ReadInside(flash: seq<byte>, r: Region, offset: nat, size: nat)
    requires r.offset + r.size < WORD && r.offset + r.size <= |flash| && offset + size <= r.size
    ensures ReadAt(flash, r, offset, size) == Some(flash[r.offset + offset..r.offset + offset + size])
  {
    hide Chain;
    ChainInside(r, offset, size);
  }

  // ----- one step of the walk

  function AlignUp(x: nat): nat { FloorTo((x + ALIGNMENT - 1) % WORD, ALIGNMENT) }

  function Be32(b: seq<byte>, i: nat): (w: nat)
    requires i + 4 <= |b|
    ensures w < WORD
  {
    ((b[i] as int * 256 + b[i + 1]) * 256 + b[i + 2]) * 256 + b[i + 3]
  }

  datatype Found = Found(metadata: Region, data: Region)

  datatype Step = End | Bad | At(file: Found)

  lemma AlignUpIs(x: nat)
    requires x + ALIGNMENT <= WORD
    ensures AlignUp(x) == RoundTo(x, ALIGNMENT) && x <= AlignUp(x) < x + ALIGNMENT && AlignUp(x) % ALIGNMENT == 0
  {
    RoundToProperties(x, ALIGNMENT);
  }

  /** The region does not wrap, and is a whole number of alignment units. */
  predicate Proper(cbfs: Region) { cbfs.offset + cbfs.size < WORD && cbfs.size % ALIGNMENT == 0 }

  lemma StepsForward(cbfs: Region, offset: nat)
    requires Proper(cbfs) && offset < cbfs.size
    ensures offset < AlignUp(offset + 1) <= cbfs.size
  {
    NextMultiple(cbfs.size, WORD, ALIGNMENT);
    AlignUpIs(offset + 1);
    RoundToLeast(offset + 1, ALIGNMENT, cbfs.size);
  }

  /** The next file at or after `offset`. */
  function Next(flash: seq<byte>, cbfs: Region, offset: nat): Step
    requires Proper(cbfs)
    decreases cbfs.size - offset
  {
    if offset >= cbfs.size then End
    else match ReadAt(flash, cbfs, offset, HEADER)
      case None => Bad
      case Some(h) =>
        if h[..8] != MAGIC then
          StepsForward(cbfs, offset);
          Next(flash, cbfs, AlignUp(offset + 1))
        else FileStep(cbfs, offset, h)
  }

  /** The regions of the file whose header is at `offset`. */
  function FileStep(cbfs: Region, offset: nat, h: seq<byte>): Step
    requires |h| == HEADER
  {
    var len, metaSize := Be32(h, 8), Be32(h, 20);
    match Chain(cbfs, offset, metaSize)
    case None => Bad
    case Some(metadata) =>
      match Chain(cbfs, (offset + metaSize) % WORD, len)
      case None => Bad
      case Some(data) => At(Found(metadata, data))
  }

  /** `cbfs_next_offset` after a file. */
  function NextOffset(cbfs: Region, data: Region): nat {
    AlignUp((RelativeOffset(cbfs, data) + data.size) % WORD)
  }

  /** `struct cbfsf` */
  class FileHandle {
    var metadata: Region
    var data: Region

    constructor ()
    {
      metadata, data := Region(0, 0), Region(0, 0);
    }
  }

  /** `cbfs_for_each_file`; `prev` may be `fh` itself.  Returns 0 for a file, 1 at the end,
      and -1 on an error. */
  method ForEachFile(flash: seq<byte>, cbfs: Region, prev: FileHandle?, fh: FileHandle) returns (ret: int)
    requires Proper(cbfs)
    modifies fh
    ensures match Next(flash, cbfs, if prev == null then 0 else old(NextOffset(cbfs, prev.data)))
            case End => ret == 1
            case Bad => ret == -1
            case At(file) => ret == 0 && fh.metadata == file.metadata && fh.data == file.data
  {
    hide Be32, AlignUp, IsSubregion, ReadAt;
    var offset := if prev == null then 0 else NextOffset(cbfs, prev.data);
    ghost var start := offset;
    while true
      invariant Next(flash, cbfs, start) == Next(flash, cbfs, offset)
      decreases cbfs.size - offset
    {
      if offset >= cbfs.size {
        return 1;
      }
      var header := ReadAt(flash, cbfs, offset, HEADER);
      if header.None? {
        return -1;
      }
      var h := header.value;
      if h[..8] != MAGIC {
        StepsForward(cbfs, offset);
        offset := AlignUp(offset + 1);
      } else {
        var len, metaSize := Be32(h, 8), Be32(h, 20);
        var metadata := Chain(cbfs, offset, metaSize);
        if metadata.None? {
          return -1;
        }
        fh.metadata := metadata.value;
        var data := Chain(cbfs, (offset + metaSize) % WORD, len);
        if data.None? {
          return -1;
        }
        fh.data := data.value;
        return 0;
      }
    }
  }

  // ----- a well-formed region

  /** Where a file is: its header, the size of its metadata, and the size of its data. */
  datatype Placed = Placed(at: nat, metaSize: nat, len: nat)

  function FileEnd(p: Placed): nat { p.at + p.metaSize + p.len }

  function Regions(cbfs: Region, p: Placed): Found {
    Found(Region(cbfs.offset + p.at, p.metaSize), Region(cbfs.offset + p.at + p.metaSize, p.len))
  }

  /** The bytes of the region. */
  predicate Holds(flash: seq<byte>, cbfs: Region) { Proper(cbfs) && cbfs.offset + cbfs.size <= |flash| }

  function Header(flash: seq<byte>, cbfs: Region, at: nat): (h: seq<byte>)
    requires Holds(flash, cbfs) && at + HEADER <= cbfs.size
    ensures |h| == HEADER
  {
    flash[cbfs.offset + at..cbfs.offset + at + HEADER]
  }

  predicate HasFile(flash: seq<byte>, cbfs: Region, p: Placed)
    requires Holds(flash, cbfs)
  {
    && p.at % ALIGNMENT == 0 && HEADER <= p.metaSize && FileEnd(p) <= cbfs.size
    && Header(flash, cbfs, p.at)[..8] == MAGIC
    && Be32(Header(flash, cbfs, p.at), 8) == p.len && Be32(Header(flash, cbfs, p.at), 20) == p.metaSize
  }

  /** No aligned position from `lo` up to `hi` looks like a file. */
  predicate Gap(flash: seq<byte>, cbfs: Region, lo: nat, hi: nat)
    requires Holds(flash, cbfs) && hi <= cbfs.size
  {
    forall o | lo <= o < hi && o % ALIGNMENT == 0 && o + HEADER <= cbfs.size :: Header(flash, cbfs, o)[..8] != MAGIC
  }

  /** From `from` on the region holds these files, in this order, with gaps between them. */
  predicate Laid(flash: seq<byte>, cbfs: Region, files: seq<Placed>, from: nat)
    requires Holds(flash, cbfs)
    decreases |files|
  {
    from % ALIGNMENT == 0 && from <= cbfs.size &&
    if files == [] then Gap(flash, cbfs, from, cbfs.size)
    else
      && HasFile(flash, cbfs, files[0]) && from <= files[0].at && Gap(flash, cbfs, from, files[0].at)
      && Laid(flash, cbfs, files[1..], RoundTo(FileEnd(files[0]), ALIGNMENT))
  }

  lemma HeaderRead(flash: seq<byte>, cbfs: Region, at: nat)
    requires Holds(flash, cbfs) && at < cbfs.size && at % ALIGNMENT == 0
    ensures at + HEADER <= cbfs.size && ReadAt(flash, cbfs, at, HEADER) == Some(Header(flash, cbfs, at))
  {
    NextMultiple(at, cbfs.size, ALIGNMENT);
    ChainInside(cbfs, at, HEADER);
  }

  /** The walk crosses a gap. */
  lemma {:induction false} CrossGap(flash: seq<byte>, cbfs: Region, lo: nat, hi: nat)
    requires Holds(flash, cbfs) && lo <= hi <= cbfs.size && lo % ALIGNMENT == 0 && hi % ALIGNMENT == 0
             && Gap(flash, cbfs, lo, hi)
    ensures Next(flash, cbfs, lo) == Next(flash, cbfs, hi)
    decreases hi - lo
  {
    hide ReadAt, Header;
    if lo < hi {
      HeaderRead(flash, cbfs, lo);
      StepsForward(cbfs, lo);
      NextMultiple(cbfs.size, WORD, ALIGNMENT);
      AlignUpIs(lo + 1);
      NextMultiple(lo, hi, ALIGNMENT);
      RoundToLeast(lo + 1, ALIGNMENT, hi);
      CrossGap(flash, cbfs, AlignUp(lo + 1), hi);
    }
  }

  /** At a file the step yields its two regions. */
  lemma StepAt(flash: seq<byte>, cbfs: Region, p: Placed)
    requires Holds(flash, cbfs) && HasFile(flash, cbfs, p)
    ensures Next(flash, cbfs, p.at) == At(Regions(cbfs, p))
    ensures NextOffset(cbfs, Regions(cbfs, p).data) == RoundTo(FileEnd(p), ALIGNMENT)
  {
    hide ReadAt, Header, Be32, NextOffset, RoundTo, FileStep;
    HeaderRead(flash, cbfs, p.at);
    StepInside(cbfs, p, Header(flash, cbfs, p.at));
    NextInside(cbfs, p);
  }

  lemma StepInside(cbfs: Region, p: Placed, h: seq<byte>)
    requires Proper(cbfs) && FileEnd(p) <= cbfs.size && |h| == HEADER && Be32(h, 8) == p.len
             && Be32(h, 20) == p.metaSize
    ensures FileStep(cbfs, p.at, h) == At(Regions(cbfs, p))
  {
    hide Be32, Chain;
    ChainInside(cbfs, p.at, p.metaSize);
    ChainInside(cbfs, p.at + p.metaSize, p.len);
  }

  lemma NextInside(cbfs: Region, p: Placed)
    requires Proper(cbfs) && FileEnd(p) <= cbfs.size
    ensures NextOffset(cbfs, Regions(cbfs, p).data) == RoundTo(FileEnd(p), ALIGNMENT)
  {
    hide AlignUp, RoundTo, RelativeOffset;
    NextMultiple(cbfs.size, WORD, ALIGNMENT);
    AlignUpIs(FileEnd(p));
    RelativeInside(cbfs, Regions(cbfs, p).data);
  }

  /** One step finds the first file of the list, or the end. */
  lemma NextIs(flash: seq<byte>, cbfs: Region, files: seq<Placed>, from: nat)
    requires Holds(flash, cbfs) && Laid(flash, cbfs, files, from)
    ensures Next(flash, cbfs, from) == if files == [] then End else At(Regions(cbfs, files[0]))
    ensures files != [] ==> Laid(flash, cbfs, files[1..], NextOffset(cbfs, Regions(cbfs, files[0]).data))
  {
    hide Gap, HasFile, NextOffset;
    if files == [] {
      CrossGap(flash, cbfs, from, cbfs.size);
    } else {
      AtAligned(flash, cbfs, files[0]);
      CrossGap(flash, cbfs, from, files[0].at);
      StepAt(flash, cbfs, files[0]);
    }
  }

  lemma AtAligned(flash: seq<byte>, cbfs: Region, p: Placed)
    requires Holds(flash, cbfs) && HasFile(flash, cbfs, p)
    ensures p.at % ALIGNMENT == 0 && p.at <= cbfs.size && FileEnd(p) <= cbfs.size && p.at < FileEnd(p)
  {}

  // ----- the whole walk

  /** All files the walk visits from `offset` on, and how it ends. */
  ghost function Visit(flash: seq<byte>, cbfs: Region, offset: nat, most: nat): (seq<Found>, Step)
    requires Proper(cbfs)
    decreases most
  {
    match Next(flash, cbfs, offset)
    case End => ([], End)
    case Bad => ([], Bad)
    case At(file) =>
      if most == 0 then ([], At(file))
      else
        var rest := Visit(flash, cbfs, NextOffset(cbfs, file.data), most - 1);
        ([file] + rest.0, rest.1)
  }

  ghost function AllRegions(cbfs: Region, files: seq<Placed>): seq<Found>
    decreases |files|
  {
    if files == [] then [] else [Regions(cbfs, files[0])] + AllRegions(cbfs, files[1..])
  }

  /** The walk inverts the layout: it visits exactly these files, in this order, and then
      reports the end. */
  lemma {:induction false} WalkInvertsLayout(flash: seq<byte>, cbfs: Region, files: seq<Placed>, from: nat, most: nat)
    requires Holds(flash, cbfs) && Laid(flash, cbfs, files, from) && |files| <= most
    ensures Visit(flash, cbfs, from, most) == (AllRegions(cbfs, files), End)
    decreases |files|
  {
    hide Laid, Next, NextOffset;
    NextIs(flash, cbfs, files, from);
    if files != [] {
      WalkInvertsLayout(flash, cbfs, files[1..], NextOffset(cbfs, Regions(cbfs, files[0]).data), most - 1);
    }
  }

  // ----- looking for a file

  /** Do the bytes, up to the first zero, spell `name`? */
  predicate Spells(bytes: seq<byte>, name: seq<byte>)
    decreases |bytes|
  {
    if bytes == [] then false
    else if bytes[0] == 0 then name == []
    else name != [] && name[0] == bytes[0] && Spells(bytes[1..], name[1..])
  }

  datatype Match = Yes | No | Failed

  /** Name and type of one file against those asked for. */
  function Matches(flash: seq<byte>, metadata: Region, name: seq<byte>, type_: Option<nat>): Match {
    if metadata.size < HEADER then Failed
    else match ReadAt(flash, metadata, HEADER, metadata.size - HEADER)
      case None => Failed
      case Some(fname) =>
        if !Spells(fname, name) then No
        else if type_.None? then Yes
        else match ReadAt(flash, metadata, 12, 4)
          case None => Failed
          case Some(t) => if Be32(t, 0) == type_.value then Yes else No
  }

  lemma FirstFile(flash: seq<byte>, cbfs: Region, files: seq<Placed>, from: nat)
    requires Holds(flash, cbfs) && Laid(flash, cbfs, files, from) && files != []
    ensures HasFile(flash, cbfs, files[0])
  {}

  /** Name and type of a file that is there can be read. */
  lemma Readable(flash: seq<byte>, cbfs: Region, p: Placed, name: seq<byte>, type_: Option<nat>)
    requires Holds(flash, cbfs) && HasFile(flash, cbfs, p)
    ensures !Matches(flash, Regions(cbfs, p).metadata, name, type_).Failed?
  {
    hide Be32, Spells, Header, ReadAt;
    ReadInside(flash, Regions(cbfs, p).metadata, HEADER, p.metaSize - HEADER);
    ReadInside(flash, Regions(cbfs, p).metadata, 12, 4);
  }

  /** What a match means in terms of the bytes of the file. */
  lemma MatchIs(flash: seq<byte>, cbfs: Region, p: Placed, name: seq<byte>, type_: Option<nat>)
    requires Holds(flash, cbfs) && HasFile(flash, cbfs, p)
    ensures Matched(flash, cbfs, p, name, type_) <==>
              && Spells(flash[cbfs.offset + p.at + HEADER..cbfs.offset + p.at + p.metaSize], name)
              && (type_.Some? ==> Be32(Header(flash, cbfs, p.at), 12) == type_.value)
  {
    hide Spells, ReadAt;
    ReadInside(flash, Regions(cbfs, p).metadata, HEADER, p.metaSize - HEADER);
    ReadInside(flash, Regions(cbfs, p).metadata, 12, 4);
  }

  // ----- files as a writer lays them out

  /** A file as it is written: `padding` follows the name and its zero byte, up to the data. */
  datatype File = File(type_: nat, attributes: nat, name: seq<byte>, padding: seq<byte>, data: seq<byte>) {
    function MetaSize(): nat { HEADER + |name| + 1 + |padding| }

    /** All numbers fit in 32 bits, and the name has no zero byte. */
    predicate Valid() {
      type_ < WORD && attributes < WORD && MetaSize() < WORD && |data| < WORD && 0 !in name
    }
  }

  /** The four bytes of a number, the most significant first. */
  function Big32(v: nat): (bytes: seq<byte>)
    requires v < WORD
    ensures |bytes| == 4
  {
    [v / 256 / 256 / 256, v / 256 / 256 % 256, v / 256 % 256, v % 256]
  }

  lemma BigInverts(v: nat, b: seq<byte>, i: nat)
    requires v < WORD && i + 4 <= |b| && b[i..i + 4] == Big32(v)
    ensures Be32(b, i) == v
  {
    var four := b[i..i + 4];
    assert b[i] == four[0] && b[i + 1] == four[1] && b[i + 2] == four[2] && b[i + 3] == four[3];
  }

  lemma PartOf(flash: seq<byte>, at: nat, bytes: seq<byte>, i: nat, j: nat)
    requires i <= j <= |bytes| && at + |bytes| <= |flash| && flash[at..at + |bytes|] == bytes
    ensures flash[at + i..at + j] == bytes[i..j]
  {
    var part, whole := flash[at + i..at + j], flash[at..at + |bytes|];
    forall k | 0 <= k < j - i ensures part[k] == bytes[i..j][k] {
      assert part[k] == whole[i + k] == bytes[i + k];
    }
  }

  /** `struct cbfs_file`: magic, length, type, offset of the attributes, offset of the data. */
  function HeaderBytes(f: File): (bytes: seq<byte>)
    requires f.Valid()
    ensures |bytes| == HEADER
  {
    MAGIC + Big32(|f.data|) + Big32(f.type_) + Big32(f.attributes) + Big32(f.MetaSize())
  }

  function FileBytes(f: File): seq<byte>
    requires f.Valid()
  {
    HeaderBytes(f) + (f.name + ([0] + f.padding)) + f.data
  }

  /** The file is written at this offset of the region. */
  predicate WrittenAt(flash: seq<byte>, cbfs: Region, at: nat, f: File)
    requires Holds(flash, cbfs)
  {
    && f.Valid() && at % ALIGNMENT == 0 && at + |FileBytes(f)| <= cbfs.size
    && flash[cbfs.offset + at..cbfs.offset + at + |FileBytes(f)|] == FileBytes(f)
  }

  function PlaceOf(at: nat, f: File): Placed { Placed(at, f.MetaSize(), |f.data|) }

  lemma HeaderFields(f: File)
    requires f.Valid()
    ensures var h := HeaderBytes(f);
            h[..8] == MAGIC && Be32(h, 8) == |f.data| && Be32(h, 12) == f.type_ && Be32(h, 20) == f.MetaSize()
  {
    hide Big32, Be32;
    var h := HeaderBytes(f);
    BigInverts(|f.data|, h, 8);
    BigInverts(f.type_, h, 12);
    BigInverts(f.MetaSize(), h, 20);
  }

  lemma {:induction false} SpellsName(name: seq<byte>, rest: seq<byte>, asked: seq<byte>)
    requires 0 !in name
    ensures Spells(name + ([0] + rest), asked) <==> asked == name
    decreases |name|
  {
    var bytes := name + ([0] + rest);
    if name == [] {
      assert bytes[0] == 0;
    } else {
      assert bytes[0] == name[0] && bytes[1..] == name[1..] + ([0] + rest);
      if asked != [] {
        SpellsName(name[1..], rest, asked[1..]);
        assert asked == [asked[0]] + asked[1..] && name == [name[0]] + name[1..];
      }
    }
  }

  /** A written file is found in its place, with its own sizes, and matches exactly its own
      name, and its own type if one is asked for. */
  lemma WrittenIsFound(flash: seq<byte>, cbfs: Region, at: nat, f: File, name: seq<byte>, type_: Option<nat>)
    requires Holds(flash, cbfs) && WrittenAt(flash, cbfs, at, f)
    ensures HasFile(flash, cbfs, PlaceOf(at, f))
    ensures Matched(flash, cbfs, PlaceOf(at, f), name, type_) <==>
              name == f.name && (type_ == None || type_ == Some(f.type_))
    ensures flash[cbfs.offset + at + f.MetaSize()..cbfs.offset + at + f.MetaSize() + |f.data|] == f.data
  {
    hide Be32, Spells, HeaderBytes, Matched;
    var p, start, all := PlaceOf(at, f), cbfs.offset + at, FileBytes(f);
    var named := f.name + ([0] + f.padding);
    PartOf(flash, start, all, 0, HEADER);
    PartOf(flash, start, all, HEADER, f.MetaSize());
    PartOf(flash, start, all, f.MetaSize(), |all|);
    assert all[0..HEADER] == HeaderBytes(f) && all[HEADER..f.MetaSize()] == named && all[f.MetaSize()..|all|] == f.data;
    HeaderFields(f);
    SpellsName(f.name, f.padding, name);
    MatchIs(flash, cbfs, p, name, type_);
  }

  /** `cbfs_locate`, on a region that holds these files: it finds the first one with the name
      and type, and fails exactly when there is none. */
  method Locate(flash: seq<byte>, cbfs: Region, name: seq<byte>, type_: Option<nat>, fh: FileHandle,
                ghost files: seq<Placed>) returns (ret: int)
    requires Holds(flash, cbfs) && Laid(flash, cbfs, files, 0)
    modifies fh
    ensures ret == 0 || ret == -1
    ensures ret == 0 ==> exists k ::
              && 0 <= k < |files| && Matched(flash, cbfs, files[k], name, type_)
              && (forall j | 0 <= j < k :: !Matched(flash, cbfs, files[j], name, type_))
              && fh.metadata == Regions(cbfs, files[k]).metadata && fh.data == Regions(cbfs, files[k]).data
    ensures ret == -1 <==> forall k | 0 <= k < |files| :: !Matched(flash, cbfs, files[k], name, type_)
  {
    hide Laid, Next, NextOffset, Matches, Regions, HasFile;
    var prev: FileHandle? := null;
    ghost var k := 0;
    assert files[0..] == files;
    while true
      invariant 0 <= k <= |files|
      invariant Laid(flash, cbfs, files[k..], if prev == null then 0 else NextOffset(cbfs, prev.data))
      invariant prev == null || prev == fh
      invariant forall j | 0 <= j < k :: !Matched(flash, cbfs, files[j], name, type_)
      decreases |files| - k
    {
      ghost var from := if prev == null then 0 else NextOffset(cbfs, prev.data);
      NextIs(flash, cbfs, files[k..], from);
      ret := ForEachFile(flash, cbfs, prev, fh);
      prev := fh;
      if ret != 0 {
        return -1;
      }
      FirstFile(flash, cbfs, files[k..], from);
      Readable(flash, cbfs, files[k], name, type_);
      match Matches(flash, fh.metadata, name, type_)
      case Failed => return -1;
      case Yes => return 0;
      case No =>
      assert files[k..][1..] == files[k + 1..];
      k := k + 1;
    }
  }

  /** The file's name and type are the ones asked for. */
  predicate Matched(flash: seq<byte>, cbfs: Region, p: Placed, name: seq<byte>, type_: Option<nat>) {
    Matches(flash, Regions(cbfs, p).metadata, name, type_).Yes?
  }
}
