# Verified models of coreboot's allocators, decoders and state machines

These Dafny modules model eight parts of coreboot and prove what they are for. Each part
is modelled in the form its C source has: loops and in-place updates are methods over
arrays and objects, proved against specification functions; the theorems are lemmas about
those functions. Addresses and sizes are integers; where a machine word matters, its
width and wrap-around are written out.

| part | source | modules |
|---|---|---|
| resource allocator | `coreboot/src/device/device.c`, `device_util.c` | `ResourceOrder`, `ResourceIterator`, `ResourceTree`, `ResourceWalk`, `AllocatorState`, `BusLayout`, `SizingPass`, `AllocationPass`, `TwoPass`, `Placement`, `Addresses`, `FixedResources`, `DeviceConfigure`, `DomainPorts`, `StrandedWindows` |
| JPEG Huffman decoder | `coreboot/src/lib/jpeg.c` | `JpegBits`, `HuffmanCode`, `JpegHuffman`, `JpegCoding` |
| LZMA decoder | `coreboot/payloads/bayou/lzmadecode.c` | `LzmaRange`, `LzmaPackets`, `LzmaUnique`, `LzmaContexts`, `LzmaStream`, `LzmaHistory`, `LzmaDecode`, `LzmaRoundTrip` |
| in-memory directory | `coreboot/src/lib/imd.c` | `ImdRoot`, `ImdTiers`, `ImdMemory`, `ImdHandle` |
| boot state machine | `coreboot/src/lib/hardwaremain.c` | `BootState` |
| PCI bus numbers | `coreboot/src/device/pci_device.c` | `PciBuses` |
| number kernels | `coreboot/src/lib/gpio.c`, `compute_ip_checksum.c` | `GpioBase3`, `IpChecksum` |
| quicksort, CBFS walk | `coreboot/payloads/coreinfo/pci_module.c`, `coreboot/src/commonlib/cbfs.c`, `region.c` | `Quicksort`, `Cbfs` |

`Wrappers` and `PowersOfTwo` are shared helpers. `dafny verify dfyconfig.toml` checks
everything. Many proofs begin with a `hide` statement: it keeps definitions a proof does
not need out of the solver's way.

## The main results

* The two passes of the resource allocator fit together, at every depth of every device
  tree (`TwoPass.TwoPassExact`, `DeviceConfigure.MemoryConfigured`), every resource ends up
  at the sum of the offsets found by the sizing pass (`Addresses.AddressesExact`), and what
  is handed out avoids fixed resources (`DeviceConfigure.MemoryAvoidsFixed`,
  `DomainPorts.PortsAvoidFixed`).
* The ten-bit lookup table of the JPEG decoder is a faithful shortcut for canonical
  Huffman decoding (`JpegHuffman.DecRec`), which inverts the coder of the standard
  (`JpegCoding.ScanInverts`).
* `LzmaDecode` is a total function from streams to outputs: it succeeds exactly on the
  streams that are the code of some packets (`LzmaDecode.LzmaDecode`), each stream has one
  meaning (`LzmaStream.DecodesOnce`), and every packet list has a stream
  (`LzmaRoundTrip.RoundTrip`).
* The in-memory directory keeps allocations apart in every reachable state
  (`ImdTiers.RunSound`, `ImdTiers.DataApart`) and is recovered from memory alone after any
  run (`ImdHandle.CreateRunRecover`).

## Where a natural property fails

Each of these is stated with the exact condition under which the property does hold.

* A stranded window (that of a disabled bridge, a fixed or subtractive one, or one after a
  missing subtractive link) is sized and descended into but never placed by its bus. What
  lies behind it may not fit: `TwoPass.TwoPassExact`, with an input in
  `StrandedWindows.DisabledBridgeMisfits`. And it is handed addresses from 0, which may
  belong to fixed memory: `DeviceConfigure.MemoryClearExactly`, with an input in
  `StrandedWindows.DisabledBridgeOverlaps`.
* Avoiding a fixed resource fails when stepping past it wraps around 64 bits, as it does
  for memory at address 0 under the initial limit: `FixedResources.AvoidExact`,
  `FixedResources.LowMemoryNotAvoided`.
* The branch that steps over the VGA ports can never run: `BusLayout.VgaBranchIsDead`.
* A size within `entry_align - 1` of 2^32 is accepted by the in-memory directory and
  overlaps its neighbour: `ImdRoot.AddApart`, `ImdRoot.WrappingSizeAccepted`. A limit of
  exactly the root size means no limit: `ImdRoot.LimitPacked`. The small tier is
  recoverable only if the large root block is a whole page: `ImdHandle.SmallRecovers`.
  `imd.h` says that adding an existing id returns NULL; the code adds it again:
  `ImdTiers.AddUnique`.
* A callback scheduled for the entry phase of a state that is in its exit phase is
  accepted and never run: the `late` callbacks of `BootState.Machine.Walk`, with an input
  in `BootState.LateCallback`.
* More than 19 tristate pins overflow an int, although 32 are admitted:
  `GpioBase3.NoOverflow`.
* The quicksort does not end when two keys are equal: `Quicksort.Sort`.
* More than 255 buses are numbered but not routed: `PciBuses.RegistersExact`.

## Model

| member | source | states |
|---|---|---|
| ResourceOrder.BestPrecedesAll | coreboot/src/device/device.c:255-303 | one rescan returns the first remaining candidate in the order (alignment, size, traversal), whenever one remains |
| ResourceOrder.OrderIsStableSort | coreboot/src/device/device.c:255-303 | repeated rescans from nothing return every non-fixed candidate exactly once, by decreasing alignment, then decreasing size, ties in traversal order |
| ResourceOrder.OrderIsUnique | coreboot/src/device/device.c:255-303 | only one list has these properties, so what the loops change between rescans (base, limit, status bits) cannot change the order |
| ResourceOrder.OrderStep | coreboot/src/device/device.c:255-303 | each rescan advances one place along that order and finds nothing exactly at its end |
| ResourceWalk.ResourcesTaken | coreboot/src/device/device_util.c:690-712 | without subtractive resources, the walk takes a resource if and only if an enabled device on the bus lists it, its kind is the one asked for, and so is its prefetch bit where that is asked for |
| ResourceWalk.BusTaken | coreboot/src/device/device_util.c:690-712 | the same with subtractive resources: each is replaced by what the walk takes on the bus it names, and one whose bus is missing ends the list of its device |
| ResourceWalk.WindowsTaken | coreboot/src/device/device.c:355-388 | a window is descended into if and only if a device on the bus, enabled or not, lists it as a bridge window of the kind and prefetch bit asked for, and the bus behind it is the first link with the number in its index |
| ResourceWalk.SplitByPrefetch | coreboot/src/device/device.c:366-388 | behind a bridge with both windows every resource of the kind is laid out for the window with its own prefetch bit and for no other |
| ResourceWalk.IndicesNameLinks | coreboot/src/include/device/resource.h:49-54 | the link number that an index was made with is read back |
| ResourceIterator.PickLargestState.PickLargestResource | coreboot/src/device/device.c:255-284 | the visitor keeps its state equal to the best successor of `last` among the candidates visited so far |
| ResourceIterator.PickLargestState.SearchBusResources | coreboot/src/device/device_util.c:680-715 | the walk visits exactly the matching resources of enabled devices, subtractive ones replaced by the bus behind them, in order |
| ResourceIterator.PickLargestState.SearchDevice | coreboot/src/device/device_util.c:680-715 | the same for one device |
| ResourceIterator.PickLargestState.SearchResource | coreboot/src/device/device_util.c:680-715 | the same for one resource; a missing subtractive bus ends the list of its device |
| ResourceIterator.LargestResource | coreboot/src/device/device.c:286-303 | a call returns the best successor of the resource given, or null when there is none |
| BusLayout.AvoidAliases | coreboot/src/device/device.c:421-441 | the alias rule as a program |
| BusLayout.BumpIsLeast | coreboot/src/device/device.c:421-441 | the alias rule takes the first port from the base on that lies in the first 0x100 ports of its 0x400 block |
| BusLayout.VgaBranchIsDead | coreboot/src/device/device.c:431-441 | the branch that steps over the VGA ports never runs: the alias branch before it already has |
| BusLayout.WindowSizeNonNegative | coreboot/src/device/device.c:453-460 | the size of a window, a difference of two rounded values, is never negative although the alignment may have grown meanwhile |
| BusLayout.OneBusPlacement | coreboot/src/device/device.c:502-561 | for any mix of fitting and non-fitting resources, those placed are aligned, within the window and their own limit, and each ends before the next one placed begins |
| BusLayout.AllocMonotone | coreboot/src/device/device.c:502-561 | the next base never decreases |
| BusLayout.OneBusTwoPass | coreboot/src/device/device.c:338-561 | on one bus: if the window is aligned, everything fits exactly when the extent measured from 0 does, and each resource lands at the window base plus the offset found by the sizing pass |
| BusLayout.IoAliasFree | coreboot/src/device/device.c:515-542 | a naturally aligned I/O resource of at most 0x100 ports lies in the first 0x100 ports of one 0x400 block, because of the order by decreasing alignment |
| SizingPass.ComputeResources | coreboot/src/device/device.c:338-466 | the recursive sizing pass turns the state of all resources into `Compute` of it |
| SizingPass.ComputeChildWindows | coreboot/src/device/device.c:351-389 | the windows of the children are sized first |
| SizingPass.ComputeDeviceWindows | coreboot/src/device/device.c:355-388 | the windows of one device, each with the link its index names and the prefetch bit fixed |
| SizingPass.LayOutBus | coreboot/src/device/device.c:391-466 | the resources of the bus are laid out and the size of the bridge follows |
| SizingPass.LayOutResources | coreboot/src/device/device.c:391-451 | the second loop visits the resources in iterator order |
| SizingPass.LayOutResource | coreboot/src/device/device.c:402-446 | one turn: alignment and limit move up to the bridge, the resource gets the next aligned offset |
| SizingPass.SizeRunClosed | coreboot/src/device/device.c:391-451 | the loop in closed form: every non-empty resource at its offset, the bridge with the greatest alignment and least limit |
| SizingPass.LevelSizeNonNegative | coreboot/src/device/device.c:453-460 | no underflow when the size of the bridge is computed |
| SizingPass.ComputeOnlyChanges | coreboot/src/device/device.c:338-466 | sizing a window changes nothing but the window and what lies behind it |
| AllocationPass.AllocateResources | coreboot/src/device/device.c:482-619 | the recursive allocation pass turns the state into `Allocate` of it, and avoids the "didn't fit" branch exactly when `AllFit` |
| AllocationPass.AllocateBus | coreboot/src/device/device.c:482-574 | the same for one bus |
| AllocationPass.HandOutAddresses | coreboot/src/device/device.c:495-565 | the loop over the resources of one bus |
| AllocationPass.HandOutAddress | coreboot/src/device/device.c:504-559 | one turn: limit from the bridge, then an aligned address or the failure branch |
| AllocationPass.AllocateChildWindows | coreboot/src/device/device.c:581-618 | the buses behind the windows follow, in order |
| AllocationPass.AllocateDeviceWindows | coreboot/src/device/device.c:581-618 | the same for the windows of one device |
| AllocationPass.AllocRunClosed | coreboot/src/device/device.c:495-565 | the loop in closed form: the outcome of each resource at the base reached before it |
| AllocationPass.EmptyAtLimit | coreboot/src/device/device.c:504-513 | an empty resource is put at its limit, bounded by that of the window, and counts as assigned |
| AllocationPass.MisfitKeepsBase | coreboot/src/device/device.c:546-559 | a resource that misfits keeps its base and status bits, one that is placed is assigned and not yet stored |
| AllocationPass.PortsAliasFree | coreboot/src/device/device.c:515-542 | on a bus with sizes that are multiples of the alignments, an I/O resource of at most 0x100 ports that is placed lies in the first 0x100 ports of one 0x400 block |
| AllocationPass.AllocateOnlyChanges | coreboot/src/device/device.c:482-619 | allocating a window changes nothing but its status bit and what lies behind it |
| TwoPass.ComputeSizes | coreboot/src/device/device.c:338-466 | the sizing pass gives every window at every depth the size, alignment and limit that what lies behind it needs |
| TwoPass.WindowSizeLeast | coreboot/src/device/device.c:453-466 | a window sized from 0 has the least multiple of its granularity that covers the extent behind it |
| TwoPass.WindowAlignAndLimit | coreboot/src/device/device.c:408-418 | a window gets the greatest alignment and the least limit among its own and those of the non-empty resources behind it |
| TwoPass.MemoryExtent | coreboot/src/device/device.c:391-451 | memory of sizes that are multiples of the alignments is packed without any gap |
| TwoPass.BusFitsExactly | coreboot/src/device/device.c:338-561 | a ready bus fits exactly when its extent fits its window |
| TwoPass.WindowPlaced | coreboot/src/device/device.c:495-565 | on a bus where everything fits, a window is moved to an aligned place inside the window of the bus and its limit becomes its last address |
| TwoPass.WindowReady | coreboot/src/device/device.c:338-619 | when its turn comes every window is ready, and one placed by its bus is large enough |
| TwoPass.TwoPassExact | coreboot/src/device/device.c:338-619 | for every tree: no resource at any depth takes the "didn't fit" branch if and only if the bus fits its window and so does what lies behind each stranded window, one that no bus ever places |
| TwoPass.StrandedStays | coreboot/src/device/device.c:255-303 | a window that is not among the resources of its bus (disabled device, subtractive, or after a missing subtractive link), or is fixed, is not moved by its bus, which is why it needs that condition |
| Placement.BusFitsContained | coreboot/src/device/device.c:495-565 | one bus without misfit: all resources assigned, aligned, inside the window, pairwise apart |
| Placement.AllFitContained | coreboot/src/device/device.c:482-619 | without misfit every non-empty resource at every depth is assigned, aligned, inside its window and so inside all windows above, and apart from its siblings |
| Addresses.FitsPlaced | coreboot/src/device/device.c:338-619 | if a bus fits its window, every non-empty resource that placed windows lead to is assigned, aligned, inside all windows above it and apart from its siblings, whatever lies behind stranded windows |
| Addresses.UsesWithin | coreboot/src/device/device.c:482-619 | so no address in use there is outside the window |
| Addresses.LandsAtOffset | coreboot/src/device/device.c:338-565 | on a bus that fits, every non-empty resource lands at the base of the window plus the offset that the layout from 0 gives it |
| Addresses.AddressesExact | coreboot/src/device/device.c:338-619 | the addresses in use at all depths behind placed windows are exactly those of the layout from 0, moved to the base of the window |
| Addresses.StrandedExact | coreboot/src/device/device.c:338-619 | and behind stranded windows, in a run without misfit, exactly those of the layout at the place where the sizing pass left each such window |
| StrandedWindows.DisabledBridgeMisfits | coreboot/src/device/device.c:338-619 | an input: behind a disabled bridge a resource of 4 GiB and a small one under a 32-bit limit misfit, although the bus itself fits |
| StrandedWindows.DisabledBridgeOverlaps | coreboot/src/device/device.c:1019-1097 | an input: everything fits and the domain window is clear of the fixed memory at 0, yet a resource behind a disabled bridge is given address 0 |
| FixedResources.AvoidExact | coreboot/src/device/device.c:643-697 | one fixed resource is left out of the remaining range if and only if stepping past it does not wrap around 64 bits |
| FixedResources.LowMemoryNotAvoided | coreboot/src/device/device.c:678-687 | the concrete failure: memory at address 0 is not avoided while the upper limit is the end of the address space |
| FixedResources.LargerSideKept | coreboot/src/device/device.c:678-687 | in the lower half of the space a fixed resource inside the range leaves the larger of the two sides, the lower one if they are equal |
| FixedResources.OutsideKept | coreboot/src/device/device.c:665-672 | a fixed resource that the range does not meet leaves it as it is |
| FixedResources.NothingFixed | coreboot/src/device/device.c:649-658 | only fixed resources of the kind are avoided |
| FixedResources.InnerResourcesNeverWrap | coreboot/src/device/device.c:643-697 | fixed resources that touch neither end of the address space never wrap |
| FixedResources.LowMemoryNeverWraps | coreboot/src/device/device.c:643-697 | nor does memory at address 0, when the upper limit and all fixed resources are in the lower half of the space and a gap follows the low memory |
| FixedResources.AllAvoided | coreboot/src/device/device.c:643-697 | if no step wraps, what remains after the whole tree is part of the initial range and free of every fixed resource of its type on the device and on enabled descendants |
| FixedResources.ConstrainResource | coreboot/src/device/device.c:649-688 | one fixed resource, with the signed comparison of unsigned differences |
| FixedResources.ConstrainResources | coreboot/src/device/device.c:643-697 | the recursive walk equals the fold over the resources of the device and its enabled descendants |
| FixedResources.ConstrainLinks | coreboot/src/device/device.c:690-696 | all links of a device |
| FixedResources.ConstrainBus | coreboot/src/device/device.c:690-696 | the enabled children of one link |
| DeviceConfigure.AvoidFixedResources | coreboot/src/device/device.c:699-755 | the windows of a domain moved clear of the fixed resources |
| DeviceConfigure.NarrowTo | coreboot/src/device/device.c:713-728 | the initial limits from the windows of the domain themselves |
| DeviceConfigure.SettleResource | coreboot/src/device/device.c:733-754 | one window: base up, limit down, and memory to the highest aligned base |
| DeviceConfigure.ResourceMaxFits | coreboot/src/device/device_util.c:620-627 | from the highest aligned base the resource ends by its limit, whenever there is room at all |
| DeviceConfigure.ConfigureDomain | coreboot/src/device/device.c:1019-1097 | sizing, avoiding and allocating for one domain |
| DeviceConfigure.SoleSized | coreboot/src/device/device.c:1045-1064 | after all windows of the domain have been sized, each of them and its tree are |
| DeviceConfigure.MemoryConfigured | coreboot/src/device/device.c:1019-1097 | two-pass sufficiency end to end: if the settled memory window starts within the limits, all that placed windows lead to is aligned and inside every window above it; nothing at any depth misfits exactly when stranded windows fit, and then the same holds behind them |
| DeviceConfigure.MemoryAvoidsFixed | coreboot/src/device/device.c:1019-1097 | for every tree, as far as placed windows lead, no address handed out to a memory resource belongs to a fixed memory resource of the domain, if no step past a fixed resource wraps |
| DeviceConfigure.MemoryClearExactly | coreboot/src/device/device.c:1019-1097 | everything at every depth fits and is clear of fixed memory if and only if the resources behind stranded windows, laid out from where these windows are, fit and cover no fixed memory |
| DomainPorts.TreeTaken | coreboot/src/device/device.c:643-697 | the fixed resources looked at are those of the device, of the enabled devices on its buses, and so on down |
| DomainPorts.NarrowExact | coreboot/src/device/device.c:713-728 | the initial limits of a kind are exactly what all windows of that kind have in common |
| DomainPorts.ResourceMaxHighest | coreboot/src/device/device_util.c:620-627 | no higher aligned base leaves room for the resource |
| DomainPorts.SettledWindow | coreboot/src/device/device.c:733-754 | after avoiding fixed resources a window ends by its own limit and the limits of its kind; an I/O window starts at the greater of its own base and that of the limits, a memory window as high as it can |
| DomainPorts.PortsAvoidFixed | coreboot/src/device/device.c:1019-1097 | if everything fits and no step past a fixed resource wraps, no port handed out to a resource that placed windows lead to belongs to a fixed I/O resource of the domain |
| DomainPorts.PortsConfigured | coreboot/src/device/device.c:1019-1097 | if the I/O window has been moved to an aligned place, nothing at any depth misfits exactly when its extent fits from there and so does what lies behind stranded windows |
| JpegBits.RegisterBits | coreboot/src/lib/jpeg.c:479-487 | the bits that can be taken or given back are the stream's own, although the register drops high bits |
| JpegBits.PeekPrefix | coreboot/src/lib/jpeg.c:479-487 | reading bits at once or in parts gives the same number |
| JpegBits.Reader.FillBits | coreboot/src/lib/jpeg.c:435-462 | at least 16 bits are at hand afterwards, stuffed zero bytes removed, zero bits after a marker |
| JpegBits.Reader.ReadByte | coreboot/src/lib/jpeg.c:444-459 | one data byte enters the register |
| JpegBits.Reader.GetBits | coreboot/src/lib/jpeg.c:479-483 | the next bits of the data, and zero bits after its end |
| JpegBits.Reader.UngetBits | coreboot/src/lib/jpeg.c:485-487 | bits given back are read again |
| HuffmanCode.PrefixFree | coreboot/src/lib/jpeg.c:571-616 | no codeword of a canonical code is a prefix of another (section C.2 of ITU-T T.81) |
| HuffmanCode.DecodeLengthExact | coreboot/src/lib/jpeg.c:501-508 | bit-by-bit decoding (section F.2.2) finds exactly the codeword the data starts with, and fails exactly when there is none |
| HuffmanCode.KraftAt | coreboot/src/lib/jpeg.c:571-616 | with the Kraft bound at 16 bits the codes of each length fit |
| JpegHuffman.HuffTable.MakeHuff | coreboot/src/lib/jpeg.c:571-616 | the built table holds, for all 1024 ten-bit numbers, the entry the canonical code calls for, and the arrays of the slow path |
| JpegHuffman.HuffTable.BuildLength | coreboot/src/lib/jpeg.c:589-614 | the same for the codes of one length |
| JpegHuffman.HuffTable.FillCode | coreboot/src/lib/jpeg.c:593-609 | the entries of one codeword |
| JpegHuffman.HuffTable.Entry | coreboot/src/lib/jpeg.c:597-607 | one entry: value sign-extended when it fits in ten bits, otherwise the size |
| JpegHuffman.EntryAt | coreboot/src/lib/jpeg.c:593-609 | the numbers that start with one codeword are those the loop writes |
| JpegHuffman.FastEntryAgrees | coreboot/src/lib/jpeg.c:522-538 | a table entry says of the data exactly what canonical decoding says: nothing, size and run, or value and run, with the right number of bits to give back |
| JpegHuffman.Unpack | coreboot/src/lib/jpeg.c:577-586 | the packed fields of an entry come back unchanged |
| JpegHuffman.DecRec | coreboot/src/lib/jpeg.c:522-538 | the fused decoder returns the run, signed value and number of consumed bits of canonical decoding followed by EXTEND, for every valid code and every bit string |
| JpegHuffman.DecRec2 | coreboot/src/lib/jpeg.c:490-520 | the same for the slow path behind the table |
| JpegHuffman.LongCode | coreboot/src/lib/jpeg.c:501-505 | the loop from length eleven finds the canonical length or none |
| JpegHuffman.Receive | coreboot/src/lib/jpeg.c:510-519 | magnitude bits and sign extension |
| JpegCoding.ExtendOfSize | coreboot/src/lib/jpeg.c:511-518 | the numbers of t magnitude bits stand for values x with 2^(t-1) <= |x| < 2^t, and are their magnitude bits |
| JpegCoding.ExtendInverts | coreboot/src/lib/jpeg.c:511-518 | every such value has its number, and zero bits stand for 0 |
| JpegCoding.ExtendIncreases | coreboot/src/lib/jpeg.c:511-518 | in increasing order |
| JpegCoding.CodewordIs | coreboot/src/lib/jpeg.c:571-590 | the codewords the decoder counts with are those of the code table of section C.2: counting up, with a zero appended for every step in length |
| JpegCoding.DecodeInverts | coreboot/src/lib/jpeg.c:490-538 | for every symbol and every value of its size, data that starts with the codeword and the magnitude bits decodes to this run and this value |
| JpegCoding.ScanInverts | coreboot/src/lib/jpeg.c:490-538 | the same for a whole list of coefficients, one after another |
| JpegCoding.CleanStuffed | coreboot/src/lib/jpeg.c:435-461 | stuffed bytes up to a marker are read as the bytes that were stuffed |
| LzmaRange.StepGood | coreboot/payloads/bayou/lzmadecode.c:42-46 | one normalization always restores Range to 2^24 without overflow; probabilities stay in 31..2017 |
| LzmaRange.RunGood | coreboot/payloads/bayou/lzmadecode.c:42-46 | the same over whole runs |
| LzmaRange.AdaptRate | coreboot/payloads/bayou/lzmadecode.c:45-46 | a bit moves its probability one part in 32 of the way to certainty |
| LzmaRange.ZeroShare | coreboot/payloads/bayou/lzmadecode.c:44-46 | the share of the range for a zero is its probability in parts of 2048, less than one part lost; without a model it is half |
| LzmaRange.BitsShare | coreboot/payloads/bayou/lzmadecode.c:44-46 | zero has the lower part of the interval and one the rest, and no other probability changes |
| LzmaRange.StepExact | coreboot/payloads/bayou/lzmadecode.c:42-46 | one step returns a bit and keeps Code below Range exactly when the stream lies in the part of the interval for that bit |
| LzmaRange.RunExact | coreboot/payloads/bayou/lzmadecode.c:42-46 | for any contexts and bits and any stream: the decoder returns these bits with Code below Range throughout if and only if the number the stream spells lies in the interval that coding assigns to them |
| LzmaRange.DivergeDisjoint | coreboot/payloads/bayou/lzmadecode.c:42-46 | bit sequences that differ own disjoint intervals |
| LzmaRange.DivergeRun | coreboot/payloads/bayou/lzmadecode.c:42-46 | no stream at all decodes to both |
| LzmaPackets.LiteralInTable | coreboot/payloads/bayou/lzmadecode.c:156-187 | every literal context lies below Literal + (768 << (lc + lp)) |
| LzmaUnique.TreeDiverge | coreboot/payloads/bayou/lzmadecode.c:54-57 | different values have diverging paths in a bit tree |
| LzmaUnique.RevDiverge | coreboot/payloads/bayou/lzmadecode.c:354-366 | the same for bits sent lowest first |
| LzmaUnique.LitDiverge | coreboot/payloads/bayou/lzmadecode.c:178-216 | the same for literals coded against a matched byte |
| LzmaUnique.LenDiverge | coreboot/payloads/bayou/lzmadecode.c:286-317 | the same for lengths |
| LzmaUnique.DistDiverge | coreboot/payloads/bayou/lzmadecode.c:320-369 | the same for distances |
| LzmaUnique.EventsDiverge | coreboot/payloads/bayou/lzmadecode.c:168-391 | different packets in the same state have diverging codes |
| LzmaContexts.PlacesApart | coreboot/payloads/bayou/lzmadecode.c:55-104 | no two questions the decoder can ask share a probability |
| LzmaContexts.PacketPuts | coreboot/payloads/bayou/lzmadecode.c:187-376 | every bit of a packet answers its own question, with the probability kept for that question: kind, distance, length, slot, footer and literal bits, each in the state, position and tree node it belongs to |
| LzmaHistory.StateTells | coreboot/payloads/bayou/lzmadecode.c:211-284 | the state number says exactly how many literals have come since the last packet of another kind, up to three, which kind that was, and whether it followed a literal |
| LzmaHistory.PacketTells | coreboot/payloads/bayou/lzmadecode.c:205-391 | a literal adds its byte; every other packet repeats the bytes at the distance that is first of the four afterwards, cut off at the output size; a match puts a new distance in front, a repeat moves one of the four there |
| LzmaHistory.PacketFails | coreboot/payloads/bayou/lzmadecode.c:238-240 | a packet is refused exactly when its distance reaches before the output |
| LzmaHistory.DistanceCoded | coreboot/payloads/bayou/lzmadecode.c:328-370 | every distance from 1 to 2^32 has a slot and a footer |
| LzmaHistory.DistanceInjective | coreboot/payloads/bayou/lzmadecode.c:328-370 | and only one of each |
| LzmaStream.SamePackets | coreboot/payloads/bayou/lzmadecode.c:168-391 | two complete packet lists read from the same stream are the same |
| LzmaStream.DecodesOnce | coreboot/payloads/bayou/lzmadecode.c:135-398 | a stream has one meaning |
| LzmaStream.NoneFits | coreboot/payloads/bayou/lzmadecode.c:37-42 | if the decoder fails in a packet (end of input, or distance before the output), the stream is not the code of any packets |
| LzmaStream.NothingFits | coreboot/payloads/bayou/lzmadecode.c:135-398 | the same for all packet lists at once |
| LzmaStream.TheResult | coreboot/payloads/bayou/lzmadecode.c:392-397 | a complete list is the meaning of the stream exactly when the last normalization has its byte |
| LzmaRoundTrip.EventsWithin | coreboot/payloads/bayou/lzmadecode.c:93-106 | every context of every packet is inside the probability table, in each of the 12 states |
| LzmaRoundTrip.DecodesExact | coreboot/payloads/bayou/lzmadecode.c:135-398 | packets are decoded from a stream, with Code below Range, exactly when its number lies in their interval and the last byte is there |
| LzmaRoundTrip.RoundTrip | coreboot/payloads/bayou/lzmadecode.c:135-398 | for every complete packet list the decoder reads this list from the stream a coder makes of it |
| LzmaRoundTrip.BytesSpell | coreboot/payloads/bayou/lzmadecode.c:33-42 | the coder's bytes spell the lowest number of the interval |
| LzmaDecode.DecodeProperties | coreboot/payloads/bayou/lzmadecode.c:110-131 | the first byte holds pb, lp, lc as digits; refused exactly when too short or too large |
| LzmaDecode.Decoder.InitRange | coreboot/payloads/bayou/lzmadecode.c:33-39 | Code after initialization is the number spelled by bytes 1 to 4; fails exactly on fewer than five bytes |
| LzmaDecode.Decoder.NormalizeRange | coreboot/payloads/bayou/lzmadecode.c:42 | one normalization |
| LzmaDecode.Decoder.DecodeBit | coreboot/payloads/bayou/lzmadecode.c:44-46 | one modelled bit, appended to the trace, or the input is used up |
| LzmaDecode.Decoder.DecodeDirect | coreboot/payloads/bayou/lzmadecode.c:340-350 | one unmodelled bit |
| LzmaDecode.Decoder.DecodeTree | coreboot/payloads/bayou/lzmadecode.c:54-57 | a bit tree; on failure the bits so far begin a full path |
| LzmaDecode.Decoder.DecodeReverse | coreboot/payloads/bayou/lzmadecode.c:355-366 | a reverse bit tree |
| LzmaDecode.Decoder.DecodeLiteralByte | coreboot/payloads/bayou/lzmadecode.c:188-212 | the eight bits of a literal, first against the matched byte |
| LzmaDecode.Decoder.DecodeMatchedBits | coreboot/payloads/bayou/lzmadecode.c:188-204 | the bits up to the first that differs from the matched byte |
| LzmaDecode.Decoder.DecodeLength | coreboot/payloads/bayou/lzmadecode.c:287-318 | lengths |
| LzmaDecode.Decoder.DecodeDistance | coreboot/payloads/bayou/lzmadecode.c:320-369 | distances |
| LzmaDecode.Decoder.DecodeFooter | coreboot/payloads/bayou/lzmadecode.c:328-367 | the bits of a distance after its slot |
| LzmaDecode.Decoder.DecodeLiteral | coreboot/payloads/bayou/lzmadecode.c:178-219 | a literal, with the state it leaves |
| LzmaDecode.Decoder.CopyMatch | coreboot/payloads/bayou/lzmadecode.c:383-390 | the copy loop writes at least one byte, none past the output size, and reads only written output |
| LzmaDecode.Decoder.DecodeMatch | coreboot/payloads/bayou/lzmadecode.c:226-390 | a match: distances shifted, end marker recognized, bad distance refused |
| LzmaDecode.Decoder.RotateDistances | coreboot/payloads/bayou/lzmadecode.c:254-282 | the four distances after a repeated match |
| LzmaDecode.Decoder.DecodeRep | coreboot/payloads/bayou/lzmadecode.c:236-390 | a repeated match or single byte |
| LzmaDecode.Decoder.DecodePacket | coreboot/payloads/bayou/lzmadecode.c:168-391 | one turn of the loop: writes at least one byte, ends, or fails for a stated reason; distances stay positive and within the output, the state below 12 |
| LzmaDecode.Decoder.DecodePackets | coreboot/payloads/bayou/lzmadecode.c:168-391 | the whole loop |
| LzmaDecode.LzmaDecode | coreboot/payloads/bayou/lzmadecode.c:135-398 | succeeds if and only if the stream is the code of some packets; the output, its length and the input consumed are then what these packets say |
| ImdRoot.AddExact | coreboot/src/lib/imd.c:316-350 | an entry is added exactly when a slot is free and its rounded size fits below the last entry, and is placed directly below it; the 32-bit overflow tests are exact |
| ImdRoot.EntriesApart | coreboot/src/lib/imd.c:316-350 | no two entries of a block overlap, and all lie below the root |
| ImdRoot.EntriesAligned | coreboot/src/lib/imd.c:316-350 | every offset is a multiple of the alignment |
| ImdRoot.AddPacked | coreboot/src/lib/imd.c:316-350 | adding keeps the layout if rounding the size up does not wrap around 32 bits |
| ImdRoot.AddApart | coreboot/src/lib/imd.c:316-350 | after an addition no two entries of the block overlap if and only if rounding the size up does not wrap |
| ImdRoot.WrappingSizeAccepted | coreboot/src/lib/imd.c:324-350 | the failure in full: such a size is accepted whenever a slot is free and its entry starts where its neighbour does |
| ImdRoot.LimitPacked | coreboot/src/lib/imd.c:281-303 | a limit keeps the layout exactly when it is no lower than what is in use; a limit equal to the root size is stored as no limit |
| ImdRoot.FindFromIs | coreboot/src/lib/imd.c:257-279 | a lookup returns the first entry with the id, the root's own left out |
| ImdTiers.CreateSound | coreboot/src/lib/imd.c:437-472 | a new two-tier directory has the layout |
| ImdTiers.RegionLeast | coreboot/src/lib/imd.c:450-453 | the region for the small tier is the least multiple of the large alignment with room for the small root and an entry of the small alignment in every slot |
| ImdTiers.StepSound | coreboot/src/lib/imd.c:504-655 | every operation of a well-behaved caller keeps the layout of both tiers |
| ImdTiers.RunSound | coreboot/src/lib/imd.c:504-655 | the layout holds in every reachable state |
| ImdTiers.DataPlace | coreboot/src/lib/imd.c:437-472 | small data lies inside the small region and below the small root, large data below that region, all above the limit |
| ImdTiers.DataApart | coreboot/src/lib/imd.c:555-580 | no two allocations of either tier share a byte |
| ImdTiers.LargeAligned | coreboot/src/lib/imd.c:316-350 | large entries are aligned to the large alignment |
| ImdTiers.SmallAligned | coreboot/src/lib/imd.c:437-472 | small entries are aligned to the small alignment if and only if it is no larger than the large root block |
| ImdTiers.RegionUsedCovers | coreboot/src/lib/imd.c:526-553 | the region in use covers every entry and both root blocks |
| ImdTiers.StepKeepsEntries | coreboot/src/lib/imd.c:504-655 | addresses and sizes of entries that stay never change |
| ImdTiers.RunKeepsEntries | coreboot/src/lib/imd.c:504-655 | the same over whole runs |
| ImdTiers.AddedEntry | coreboot/src/lib/imd.c:555-580 | an addition returns a new entry of the size asked for, found again under its id unless an older one has it |
| ImdTiers.SmallExact | coreboot/src/lib/imd.c:555-580 | an addition lands in the small tier if and only if that has a free slot and room, is not locked, and the size is at most its alignment or a quarter of the room |
| ImdTiers.FindExact | coreboot/src/lib/imd.c:582-594 | a lookup returns the first entry with the id in the small tier, or else in the large one, and nothing exactly if neither has one |
| ImdTiers.AddUnique | coreboot/src/lib/imd.c:555-580 | a plain addition keeps ids unique exactly when the id is new; it does not refuse an existing id |
| ImdTiers.RunUnique | coreboot/src/lib/imd.c:596-607 | ids stay unique over every run that adds only by find-or-add |
| ImdMemory.ImageAppend | coreboot/src/lib/imd.c:126-133 | writing a slot and the count adds one entry to the block in memory |
| ImdMemory.ImageFrame | coreboot/src/lib/imd.c:143-199 | the image depends only on the words from the root to its limit |
| ImdMemory.RecoverExact | coreboot/src/lib/imd.c:201-255 | a block with its layout is recovered if and only if its limit is a multiple of 4096 and nothing reaches below address zero |
| ImdMemory.EntryOkExact | coreboot/src/lib/imd.c:232-246 | recovery accepts an entry exactly if it lies between the two limits, or its end wraps around 32 bits and comes out below the upper one |
| ImdMemory.Imdr.CreateEmpty | coreboot/src/lib/imd.c:143-199 | an empty block in memory; refused exactly for a null limit or bad sizes |
| ImdMemory.Imdr.Recover | coreboot/src/lib/imd.c:201-255 | recovery from memory words alone, with the exact condition, of a block that an earlier stage wrote |
| ImdMemory.Imdr.EntryFind | coreboot/src/lib/imd.c:257-279 | lookup in memory equals lookup in the block it holds |
| ImdMemory.Imdr.LimitSize | coreboot/src/lib/imd.c:281-303 | the limit in memory |
| ImdMemory.Imdr.EntryAdd | coreboot/src/lib/imd.c:316-366 | addition in memory equals addition to the block it holds, and writes only inside the block |
| ImdMemory.Imdr.HasEntry | coreboot/src/lib/imd.c:368-383 | which addresses are entries of the block |
| ImdMemory.Imdr.EntryRemove | coreboot/src/lib/imd.c:631-655 | removal of the last entry, in memory |
| ImdHandle.Handle.CreateTieredEmpty | coreboot/src/lib/imd.c:437-472 | creation of both tiers in memory, with the exact success condition |
| ImdHandle.Handle.EntryAdd | coreboot/src/lib/imd.c:555-580 | addition to the directory in memory, for every size: small tier first for small sizes, then the large one; the layout is kept if the size can be rounded up |
| ImdHandle.Handle.EntryFind | coreboot/src/lib/imd.c:582-594 | lookup, small tier first |
| ImdHandle.Handle.FindOrAdd | coreboot/src/lib/imd.c:596-607 | find or add, for every size |
| ImdHandle.Handle.EntryInLarge | coreboot/src/lib/imd.c:385-395 | an entry address identifies its tier |
| ImdHandle.Handle.EntryAt | coreboot/src/lib/imd.c:614-624 | the address of an entry |
| ImdHandle.Handle.RegionUsed | coreboot/src/lib/imd.c:526-553 | base and size of the region in use |
| ImdHandle.Handle.EntryRemove | coreboot/src/lib/imd.c:631-655 | removal succeeds exactly for the last entry of an unlocked tier; the layout is kept unless the entry is the region of the small tier |
| ImdHandle.Handle.LimitSize | coreboot/src/lib/imd.c:504-507 | the limit of the large tier; the layout is kept if it is no lower than what is in use |
| ImdHandle.Handle.Lockdown | coreboot/src/lib/imd.c:509-524 | both tiers locked |
| ImdHandle.SmallRecovers | coreboot/src/lib/imd.c:437-502 | the small tier can be recovered if and only if the large root block is a whole page |
| ImdHandle.LargeRecovers | coreboot/src/lib/imd.c:201-255 | the large tier can be recovered if and only if nothing of it reaches below address zero |
| ImdHandle.Handle.Recover | coreboot/src/lib/imd.c:474-502 | a later stage gets back the whole directory from limit and memory alone, if and only if both tiers can be recovered |
| ImdHandle.Handle.PartialRecover | coreboot/src/lib/imd.c:404-430 | shallow recovery always finds a stored directory again |
| ImdHandle.CreateRunRecover | coreboot/src/lib/imd.c:437-502 | the whole life: create, any run of allowed operations, and recovery through a new handle that knows only the upper limit, which succeeds if and only if nothing reaches below address zero and the large root block is a whole page, and then gives the directory of the run |
| BootState.Machine.SchedCallback | coreboot/src/lib/hardwaremain.c:387-403 | refused exactly for a completed state; otherwise queued first, and late if the phase is past |
| BootState.Machine.BlockPhase | coreboot/src/lib/hardwaremain.c:492-509 | blocking is refused exactly for a phase the machine is past |
| BootState.Machine.UnblockPhase | coreboot/src/lib/hardwaremain.c:511-536 | unblocking is refused exactly for such a phase or one not blocked |
| BootState.Machine.RunForeign | coreboot/src/lib/hardwaremain.c:270-283 | a stretch of foreign code has the effect of its calls, one after the other, and keeps the invariant |
| BootState.Machine.TakeFirst | coreboot/src/lib/hardwaremain.c:291-305 | a callback is taken off its queue and run |
| BootState.Machine.CallCallbacks | coreboot/src/lib/hardwaremain.c:285-317 | comes back only with no callback queued and no blocker |
| BootState.Machine.Leave | coreboot/src/lib/hardwaremain.c:345-375 | a phase is left only in that condition, and the history records the board at that moment |
| BootState.Machine.Do | coreboot/src/lib/hardwaremain.c:387-545 | one call from foreign code has exactly the effect the interface describes |
| BootState.Machine.EntryPhase | coreboot/src/lib/hardwaremain.c:345-355 | timers and the entry phase; the machine is then in the exit phase of the same state |
| BootState.Machine.RunFunction | coreboot/src/lib/hardwaremain.c:361-361 | the state function runs, what it found is recorded, and it names the next state by that |
| BootState.Machine.ExitPhase | coreboot/src/lib/hardwaremain.c:357-384 | the state function and the exit phase; the machine is then at the state named for what was found, or at the completed last state |
| BootState.ResumeOnWake | coreboot/src/lib/hardwaremain.c:181-207 | the resume state is run only if the check found a wake vector; after the check comes the resume state if it did and the tables if it did not |
| BootState.Machine.RunState | coreboot/src/lib/hardwaremain.c:328-385 | one state is run, once, and names the next one by what it found |
| BootState.Machine.Walk | coreboot/src/lib/hardwaremain.c:328-385 | each state run was named by the one before it and by what that found: the resume check chooses, every other state is followed by the next in the enumeration; states and phases come in strictly increasing order, each once; each phase was left with no callback queued and no blocker; no callback runs twice and no late one at all; of the callbacks accepted for a phase that has been left exactly those run that did not come late; the walk stops only on entering the completed last state again |
| BootState.LateCallback | coreboot/src/lib/hardwaremain.c:387-403 | an input: the first state function schedules a callback for the entry phase of its own state; it is accepted and, however the run goes on, never run |
| GpioBase3.Base3Value | coreboot/src/lib/gpio.c:84-158 | the loop computes the plain ternary value or the binary-first number, and its running totals are those of the pins read so far |
| GpioBase3.ReadIs | coreboot/src/lib/gpio.c:113-114 | a pin low both times is 0, high both times 1, and one that follows the pulls 2 |
| GpioBase3.TernaryFront | coreboot/src/lib/gpio.c:112-116 | the first pin is the least significant digit |
| GpioBase3.BelowCounts | coreboot/src/lib/gpio.c:118-150 | what the loop adds up is the number of combinations without Z of smaller ternary value |
| GpioBase3.BinaryIs | coreboot/src/lib/gpio.c:153-158 | combinations without Z get their binary value |
| GpioBase3.RankIs | coreboot/src/lib/gpio.c:118-158 | the number is the rank among the combinations of the same kind, those with Z after all without |
| GpioBase3.InRange | coreboot/src/lib/gpio.c:118-158 | without Z below 2^n, with Z from 2^n up to 3^n |
| GpioBase3.Injective | coreboot/src/lib/gpio.c:118-158 | different combinations get different numbers, in ternary order within each kind |
| GpioBase3.Surjective | coreboot/src/lib/gpio.c:118-158 | every number below 3^n is taken |
| GpioBase3.NoOverflow | coreboot/src/lib/gpio.c:83-158 | the running totals and the final sum fit in an int for all combinations if and only if there are at most 19 pins; the assertion in the code admits 32 |
| IpChecksum.Compute | coreboot/src/lib/compute_ip_checksum.c:4-34 | the checksum is the complement of the folded sum, with the right one of the two zeros |
| IpChecksum.Add | coreboot/src/lib/compute_ip_checksum.c:36-53 | composition on two checksums |
| IpChecksum.FoldAdd | coreboot/src/lib/compute_ip_checksum.c:20-28 | adding with the carry wrapped around is adding modulo 0xFFFF, and zero only for zero |
| IpChecksum.FoldSwap | coreboot/src/lib/compute_ip_checksum.c:41-46 | swapping the bytes of a sum is multiplying it by 256 |
| IpChecksum.Composition | coreboot/src/lib/compute_ip_checksum.c:36-53 | for all blocks of any length and parity, composing their checksums gives exactly the checksum of their concatenation |
| IpChecksum.ReceiverAccepts | coreboot/src/lib/compute_ip_checksum.c:4-38 | stored low byte first in a field that was zero, the checksum makes the checksum of the whole come out as zero |
| Quicksort.Partition | coreboot/payloads/coreinfo/pci_module.c:52-70 | the pivot from the middle ends up with the smaller keys before it and no smaller ones after |
| Quicksort.MoveSmaller | coreboot/payloads/coreinfo/pci_module.c:60-65 | the loop of the partition |
| Quicksort.DistinctSplit | coreboot/payloads/coreinfo/pci_module.c:52-70 | equal keys are never separated |
| Quicksort.Halves | coreboot/payloads/coreinfo/pci_module.c:72-83 | the recursion depth that is enough shrinks in both halves when keys are distinct |
| Quicksort.Sort | coreboot/payloads/coreinfo/pci_module.c:72-83 | a call that comes back has sorted, and rearranged only its segment; with enough depth it comes back if and only if all keys are distinct |
| PciBuses.BusesTaken | coreboot/src/device/device.c:949-958 | the buses numbered are those behind enabled bridges, at any depth |
| PciBuses.PreOrder | coreboot/src/device/pci_device.c:1174-1230 | buses are numbered one after another in pre-order; the subordinate of a bridge is its secondary plus the number of buses behind it |
| PciBuses.Together | coreboot/src/device/pci_device.c:1174-1230 | the buses behind a bridge stand together in the pre-order, its own first |
| PciBuses.IntervalExact | coreboot/src/device/pci_device.c:1174-1230 | the interval of a bridge contains the number of a bus if and only if that is its own bus or one behind it |
| PciBuses.PrimaryIs | coreboot/src/device/pci_device.c:1174-1230 | the primary number of a bridge is that of the innermost bridge around it, or of the bus scanned |
| PciBuses.RouteArrives | coreboot/src/device/pci_device.c:1174-1230 | a request for a bus number passed on by every bridge that claims it arrives at exactly the bus with that number |
| PciBuses.SiblingsApart | coreboot/src/device/pci_device.c:1174-1230 | a number claimed by one bridge is claimed by none of its later siblings |
| PciBuses.RegistersExact | coreboot/src/device/pci_device.c:1184-1212 | the eight-bit register fields hold the numbers if and only if the last number is at most 255 |
| PciBuses.ScanBridges | coreboot/src/device/device.c:949-958 | the walk gives every bus its numbers, and the bus walked ends with its initial subordinate plus the number of buses behind it |
| PciBuses.OpenClaims | coreboot/src/device/pci_device.c:1180-1206 | while the buses behind a bridge are scanned, every bridge on the way there passes on each number still to be given |
| PciBuses.ScanBridge | coreboot/src/device/pci_device.c:1232-1258 | one bridge: opened, scanned, closed |
| Cbfs.ForEachFile | coreboot/src/commonlib/cbfs.c:64-113 | one call yields the next file, the end or an error; the previous handle may be the same object |
| Cbfs.CrossGap | coreboot/src/commonlib/cbfs.c:84-88 | the walk crosses a gap |
| Cbfs.StepAt | coreboot/src/commonlib/cbfs.c:90-103 | at a file the handle gets its metadata and data regions, and the next offset is the aligned end |
| Cbfs.NextIs | coreboot/src/commonlib/cbfs.c:64-113 | on a well-formed region one call yields the first remaining file, or the end |
| Cbfs.WalkInvertsLayout | coreboot/src/commonlib/cbfs.c:64-113 | iterating visits exactly the files laid out, in order, and then reports the end |
| Cbfs.ChainInside | coreboot/src/commonlib/region.c:154-173 | a chained region inside its parent has absolute offsets |
| Cbfs.ChainExact | coreboot/src/commonlib/region.c:25-62 | where nothing wraps, exactly the parts of a region can be chained |
| Cbfs.WrittenIsFound | coreboot/src/commonlib/cbfs.c:90-103 | a file written with its header in big-endian words is found in its place with its own sizes and data, and matches exactly its own name, and its own type if one is asked for |
| Cbfs.MatchIs | coreboot/src/commonlib/cbfs.c:196-220 | a match means the name up to its zero byte, and the type if one is given |
| Cbfs.Locate | coreboot/src/commonlib/cbfs.c:172-233 | the first file with the name and type is returned; it fails exactly when there is none |

## Left out

Resource allocator:

- The flag word is modelled as named fields; the bits the allocator only reads are constants.
- 64-bit wrap-around is modelled where the code relies on it (`FixedResources`, `ResourceMax`); sizes and addresses in the two passes are unbounded integers, that is, no sum there wraps.
- That every window starts at base 0, and an I/O window with at least 0x400 alignment, is a precondition (`WindowsAtZero`): `coreboot/src/device/pci_device.c:359-385` creates windows that way.
- `WellFormed` asks that no resource is reached twice and that every window names an existing link; with a missing link the code follows a null pointer.
- `DeviceConfigure.MemoryConfigured`: one memory window per domain; likewise `DomainPorts.PortsConfigured` and `DomainPorts.PortsAvoidFixed` for one I/O window.
- `DomainPorts.PortsConfigured`: the base of the I/O window after avoiding fixed resources is aligned, as fixed resources can leave it at any port; `DomainPorts.PortsAvoidFixed` needs no alignment.
- `largest_resource` also returns the device of the resource, which only messages use; messages are left out everywhere.
- Reading resources from devices and writing them back (`read_resources`, `assign_resources`).

JPEG:

- Bitwise-or of disjoint fields is written as addition, shifts as multiplication and division by powers of two.
- The callback for the end-of-file marker is taken to be absent, and the data to contain a marker; `fillbits` reads past data without one.
- After a bad code only the error mark is specified, not the position of the reader.
- `decode_mcus`, dequantization, the inverse transform and pixel output: loops over the decoder proved here, and arithmetic.

LZMA:

- The local variables of the C function are fields of one object, and its nested blocks are methods.
- `LzmaDecode.LzmaDecode`: output sizes below 2^32, as `SizeT` is 32 bits wide; the probability table has exactly the size that `LzmaGetNumProbs` gives.
- Overlap of the input and output buffers.

In-memory directory:

- Addresses and sizes are 32 bits wide; a build with a 64-bit `size_t` truncates entry sizes, which is not modelled.
- The test for a power of two by `x & (x - 1)` is written as repeated halving.
- `ImdMemory.Imdr.CreateEmpty`: powers of two and at least 64 bytes; the code asserts the first, and leaves it to its caller that the block has room for entries. A block of 32 bytes has none, and its first entry is written over the root pointer.
- `ImdHandle.Handle.CreateTieredEmpty`: the same, and memory below the limit for both tiers; with less the code computes addresses below zero.
- `ImdHandle.Handle.EntryRemove`: the entries of the root blocks themselves, which no lookup returns.
- `ImdTiers.StepSound`: callers keep sizes from wrapping, remove only entries they added, and set no limit below what is in use (`Allowed`); what the other operations do is stated by the methods of `ImdHandle.Handle`, and what they break by the lemmas of `ImdRoot`.
- `ImdMemory.Imdr.Recover`: what an earlier stage wrote is given as a ghost argument; memory that no stage wrote is only considered as far as the magic of the root pointer.
- The single-tier `imd_create_empty`, the cursor and the listing of entries.

Boot state machine:

- Callbacks, state functions and timers are foreign code read from a script; a callback scheduled again while it is still queued is not modelled, nor is the overflow of the blocker count.
- Debug output, post codes, time samples.

PCI bus numbers:

- Probing devices and all other register writes; which bridges exist and are enabled is given as a tree.
- Rescans after `reset_needed`.

Number kernels:

- Pin levels are inputs; a pin that is low when pulled up and high when pulled down is excluded.
- The checksum is modelled on a little-endian machine, and `add_ip_checksums` on 16-bit arguments, of which the code uses only the low 16 bits.

Quicksort and CBFS:

- `Quicksort.Sort`: a depth bound stands for the call stack; a call that runs out of it for every bound never comes back.
- `Cbfs.Locate`: stated for regions that hold a given list of files; other regions are covered by `Cbfs.ForEachFile`.
- The region device is a memory; reads past its end, which the memory device does not check, count as failed. File attributes, decompression and hashing.
