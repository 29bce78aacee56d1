# Paguro: verified models

Paguro keeps Linux images as files on a Windows (NTFS, often BitLocker) volume and boots them beside
Windows. These Dafny modules model the parts everything else relies on and prove what they promise.

* **The protected views** (`kernel/dm-paguro`). `Extents`, `Range` and `Claim` are the array algorithms:
  heapsort, in-place merging, the binary-search range test, the merge walk, coalescing, truncation and
  gather. `Views` is the control device and the three views as an abstract machine over sectors;
  `Isolation` is its invariant over every run, `Guarantees` what that gives for a volume's own tables,
  `Effects` when each operation takes effect and which, `Lifetimes` what that means for everything after it,
  and `Devices` what holds on the devices themselves. `Slots`, `Ioctls` and
  `Control` are the module's own state, extent lists in slots, as an object whose every operation is
  proved to be one abstract step and which carries its whole run as a ghost.
* **The NTFS map** (`pg_ntfs.c`). `Runlist` decodes mapping pairs, with NTFS's own encoding as partner;
  `Ntfs`, `NtfsRecord`, `NtfsWalk` and `NtfsFile` go from boot sector and MFT records, through an
  attribute list, to the gapless runs of a file; `NtfsMap` turns runs into extents and shows that the two
  ways the module translates a file offset agree; `Derivation` is what a claim is made from and
  `NtfsBytes` what it says of the bytes on the device.
* **The BitLocker view.** `BitLocker` is `Layout::new`, the pointwise view and the run map that refines
  it; `Blocks` reads a partition in units of the volume and `Decryption` is the cached reader over that;
  `Ciphertext` joins the view to the claims: protecting a file in
  the plaintext protects the same sectors of the ciphertext.
* **Two protocols.** `BootTrace` and `Ratchet` are the loader's stage machine and its PCR 12 ratchet, over
  every world and every user; `FilterTable` and `FilterCache` are the minifilter's table and its
  generation-tagged cache under every interleaving, the lock-free path read by read.
* **File reads.** `FileReads` is the loader's path from blocks to a file's bytes, over `Buffers`.

`dafny verify dfyconfig.toml` checks all of it. Every lemma switches Dafny's automatic induction off, so that each
proof is what its body says.

## How the model reads the source

* Unsigned 64-bit words are integers below 2^64; where the C or Rust relies on wrap-around, saturation or a
  checked sum, the model writes it out (`Add64`, `Sub64`, `Saturate`, explicit bounds).
* Every ioctl, table constructor or destructor and map call is one atomic step, as the locking rules at the
  top of `pg_ctl.h` allow. The devices may hold anything at each step: a derivation reads a device given to
  that call. Counters of refused requests are unbounded.
* A claim's state bits are three booleans. Ids are slot numbers plus one, so a live slot has the id it is
  looked up by. A table is identified by a number no live table has.
* The verdicts of device lookup and of the payload check are parameters of the table constructors; the
  alignment test of view A is modelled.
* A BitLocker volume is read as `open_bitlocker` leaves it, which refuses units that the disk's blocks do not
  divide (`FileReads.OpenBitLocker`). `Blocks.UnitBlockExact` shows that the block arithmetic needs exactly
  that division.
* A device read may fail at any time; a read that succeeds returns the device's fixed bytes. XTS is any
  length-preserving function of a tweak and a unit's bytes.
* The loader runs in a `World`: Secure Boot, the stored hash, `paguro.ini` and what the parser makes of it, PCR
  12, whether an extend succeeds, each volume's kind and seals and whether it opens under a key, and a hash
  function. These are fixed for the run, which asks for each of them once, keys tried again aside. Derived keys,
  the TPM's answers to unseals, clocks, failing reads and what is on screen are arbitrary at every call. A
  parsed configuration always has a default entry, as `crates/paguro-core/src/config.rs` guarantees. What the
  user types is a finite script; a run that outlasts it is still waiting at a prompt. An extend is recorded
  when it is submitted, with its outcome; a failed one halts the run.
* In the minifilter the exclusive lock is held over several steps, the shared lock over one lookup, and the
  cached path takes none: its reads of the count, the stream context and the generation are three steps. A
  stream belongs to one file throughout.

Two promises of the source hold only under a condition, which is proved exactly.

* A sector of a claimed file is reached only through that claim's view A: true of the volume's own tables
  always, and on its plaintext device as long as no other volume was added with that device as its raw one.
  `PG_VOLUME_ADD` compares raw with raw and plaintext with plaintext only (`pg_ctl.c`, lines 312 to 318).
  `Devices.OnlyThroughOwnView` proves it under that condition, and `Devices.BreachExactly` that two volumes
  have a run that breaks it if and only if the condition fails; `Ciphertext.CipherBreachExactly` says the
  same of the ciphertext device. `Control.CrossedRun` carries the first out on the module itself.
* A comment in `paguro_flt.c` says every change invalidates every earlier stream context, but the
  generation has 32 bits. `FilterCache.Coherence` proves it for flags fewer than 2^32 changes old, and
  `FilterCache.StaleExactly` that it can fail on flags n changes old if and only if n is a positive multiple
  of 2^32.

## Model

| member | source | states |
|---|---|---|
| Range.Sift | kernel/dm-paguro/pg_range.c:5-23 | restores the max-heap below `root`, rearranging only the first n extents; no index wraps |
| Range.Sort | kernel/dm-paguro/pg_range.c:25-39 | heapsort: the first n extents sorted by start, a permutation of what they were, the rest untouched |
| Range.MergeInPlace | kernel/dm-paguro/pg_range.c:48-59 | the in-place merge is the left fold of extending the last extent or starting a new one |
| Range.MergeAllMerged | kernel/dm-paguro/pg_range.c:48-59 | that fold of a sorted list is its normal form: sorted, disjoint, non-touching, same sectors |
| Range.Normalise | kernel/dm-paguro/pg_range.c:41-60 | 0 exactly when there is no range or one is empty; otherwise the normal form of the union of possibly overlapping ranges |
| Range.Blocks | kernel/dm-paguro/pg_range.c:62-83 | the binary search answers true exactly when the request is empty, wraps 64 bits or names a covered sector |
| Extents.NormalisedUnique | kernel/dm-paguro/pg_range.c:41-60 | normal forms are unique: two normalised lists with the same sectors are the same list |
| Claim.TouchAllExact | kernel/dm-paguro/pg_claim.c:15-27 | the touching-merge of a sorted list fails exactly on an empty extent or an overlap, and else yields the normal form |
| Claim.Normalise | kernel/dm-paguro/pg_claim.c:5-28 | succeeds exactly when the list fits, no extent is empty and no sector is named twice; then the normal form of exactly the file's sectors |
| Claim.Intersects | kernel/dm-paguro/pg_claim.c:30-45 | the merge walk over two normalised lists is true exactly when their sector sets meet |
| Claim.CheckGrows | kernel/dm-paguro/pg_claim.c:47-58 | the loop decides: same extents, except that the last old one may have grown |
| Claim.GrowsExact | kernel/dm-paguro/pg_claim.c:47-58 | on coalesced lists that test is true if and only if the old sector sequence is a prefix of the new one |
| Claim.CoalescedUnique | kernel/dm-paguro/pg_claim.h:28-34 | the maximal-run decomposition of a sector sequence is unique |
| Claim.Coalesce | kernel/dm-paguro/pg_claim.c:60-73 | maximal runs of the same sector sequence, in place; 0 exactly when empty or some extent is |
| Claim.Truncate | kernel/dm-paguro/pg_claim.c:75-92 | cuts to exactly the first `sectors` logical sectors, keeping maximal runs; 0 exactly when they are not there |
| Claim.Gather | kernel/dm-paguro/pg_claim.c:94-110 | 0 exactly beyond the file; otherwise the physical sector and how far the file continues from it in step, on coalesced lists the longest run; no sum wraps |
| Runlist.RunlistDecode | kernel/dm-paguro/pg_ntfs.c:54-113 | decodes to what the recursive definition says, with its error code, touching only its part of out[] |
| Runlist.DecodeEncode | kernel/dm-paguro/pg_ntfs.c:54-113 | every valid, terminated list of mapping pairs with any field widths decodes, each LCN the sum of the signed deltas so far |
| Runlist.EncodeDecode | kernel/dm-paguro/pg_ntfs.c:54-113 | whatever decodes is such a list: counts positive, prefix sums non-negative, lcn + count below 2^64 |
| Runlist.DecodeExact | kernel/dm-paguro/pg_ntfs.c:54-113 | so decoding succeeds exactly on terminated valid mapping pairs within capacity |
| Runlist.Advance | kernel/dm-paguro/pg_ntfs.c:89-106 | the sign-extended 64-bit delta moves the LCN as the mathematical sum does, or reports which way it leaves the range |
| Ntfs.Boot | kernel/dm-paguro/pg_ntfs.c:115-157 | accepts exactly boot sectors with sane sizes, bytes that fit 64 bits and $MFT inside, and gives the geometry their fields describe |
| Ntfs.SectorOf | kernel/dm-paguro/pg_ntfs.c:164-179 | finds a sector exactly below the mapped clusters, and it is that of the cluster the runs map, with no 64-bit wrap |
| NtfsRecord.Fixup | kernel/dm-paguro/pg_ntfs.c:212-222 | succeeds exactly when every protected sector ends in the sequence number, and the record is the raw one with those ends restored |
| NtfsRecord.ReadRecord | kernel/dm-paguro/pg_ntfs.c:186-235 | succeeds exactly when the map and the device hold record recno, framed, protected and with fitting bounds, below the limit; rec is it, unprotected |
| NtfsRecord.ReadAttr | kernel/dm-paguro/pg_ntfs.c:243-276 | accepts exactly the headers whose name, value and non-resident fields stay inside the attribute and the attribute inside the record |
| NtfsWalk.DecodeRuns | kernel/dm-paguro/pg_ntfs.c:279-297 | the attribute's runs are those its mapping pairs describe, all inside the volume, written only above base; whenever it has such runs and there is room |
| NtfsWalk.Segment | kernel/dm-paguro/pg_ntfs.c:309-356 | appends one plain $DATA segment whose VCN bounds meet the ones before and its own runs; whenever the segment follows and there is room |
| NtfsWalk.AccountsNext | kernel/dm-paguro/pg_ntfs.c:309-356 | appending a segment that starts at the current VCN keeps VCNs 0..vcn gapless and the accumulator exact |
| NtfsFile.ScanBase | kernel/dm-paguro/pg_ntfs.c:451-470 | one pass finds the only attribute list, the first unnamed $DATA and how many there are; fails exactly without an end marker or with two lists |
| NtfsFile.LoadList | kernel/dm-paguro/pg_ntfs.c:362-398 | reads the resident value, or the sectors the list's own runs map, with out[] as scratch; whenever it can be read |
| NtfsFile.FindSegment | kernel/dm-paguro/pg_ntfs.c:401-419 | the first unnamed $DATA attribute with the instance number, bounded by the record, or none if there is none |
| NtfsFile.WalkList | kernel/dm-paguro/pg_ntfs.c:486-532 | for any number of entries: one segment per unnamed $DATA entry, in order, each from a live record that names the base, gapless; whenever the list is walkable |
| NtfsFile.CloseWalk | kernel/dm-paguro/pg_ntfs.c:537-546 | accepts exactly when vcn times the cluster size is the allocated size, which bounds the initialised, sector-aligned data |
| NtfsFile.Walk | kernel/dm-paguro/pg_ntfs.c:425-547 | succeeds exactly when the file has a map: all its segments end to end, gapless from VCN 0, inside the volume, holding the allocated size; and finds that map |
| NtfsFile.MapTakeable | kernel/dm-paguro/pg_ntfs.c:425-547 | a file's map, wherever it comes from, passes every check of the walk in turn: the half that makes acceptance exact |
| NtfsFile.MapUnique | kernel/dm-paguro/pg_ntfs.c:425-547 | a file has at most one map: boot sector, $MFT, attribute list and mapping pairs settle every run of it |
| NtfsFile.Open | kernel/dm-paguro/pg_ntfs.c:549-565 | succeeds exactly when the boot sector is acceptable and $MFT, read through the one run it names, has a map |
| NtfsFile.File | kernel/dm-paguro/pg_ntfs.c:567-576 | succeeds exactly for a user record and sequence number whose file has a map through $MFT |
| NtfsFile.VolumeFlags | kernel/dm-paguro/pg_ntfs.c:608-639 | the flags of the first resident $VOLUME_INFORMATION in the live base record 3, exactly when it has one long enough |
| NtfsMap.SegmentsEndToEnd | kernel/dm-paguro/pg_ntfs.c:309-356 | the segments of an accepted walk lie end to end by their own VCN bounds, and laid out they are the clusters of its runs |
| NtfsMap.VcnInSegment | kernel/dm-paguro/pg_ntfs.c:425-547 | no gap: every VCN below the total lies in a segment's bounds and maps where that segment's own runs put it |
| NtfsMap.ToExtents | kernel/dm-paguro/pg_ntfs.c:578-606 | extents are coalesced, inside the volume, and name exactly the sectors of the clusters the runs map, in order; exact errors |
| NtfsMap.SectorOfIsGather | kernel/dm-paguro/pg_ntfs.c:164-179 | the two translations agree: sector_of at any mapped byte offset is the extents' sector at that logical sector |
| NtfsMap.BothEnd | kernel/dm-paguro/pg_claim.c:94-110 | and they end together: an offset is past the runs exactly when its sector is past the extents |
| NtfsMap.TranslateBoth | kernel/dm-paguro/pg_claim.c:94-110 | running both on one offset: each finds a sector exactly when the other does, and it is the file's |
| Derivation.Derive | kernel/dm-paguro/pg_ctl.c:223-255 | the exact answer: succeeds if and only if the device's own $MFT maps the file, in the known geometry, to sectors without repeats; the result is those sectors, sound for a claim |
| Derivation.DerivesUnique | kernel/dm-paguro/pg_ctl.c:223-255 | a device derives one list of sectors and one size for a file |
| Derivation.ProbeVolume | kernel/dm-paguro/pg_ctl.c:325-351 | the exact answer: accepts if and only if the boot sector, $MFT and $Volume show a volume that fits both devices, with the geometry and dirty bit they show |
| Derivation.ProbesUnique | kernel/dm-paguro/pg_ctl.c:325-351 | two devices show one geometry and one dirty bit |
| NtfsBytes.BootBytes | kernel/dm-paguro/pg_ntfs.c:115-157 | an accepted boot sector is signed and named NTFS, and the geometry is what its bytes at 0x0b, 0x0d, 0x28, 0x30 and 0x40 say |
| NtfsBytes.DerivedRecord | kernel/dm-paguro/pg_ntfs.c:439-450 | a derived file's base record, where the device stores it: in use, no directory, no extension, its 16-bit word at 0x10 the sequence number asked for, its own number, where stated, the record's; the geometry is the boot sector's |
| NtfsBytes.SequenceUnique | kernel/dm-paguro/pg_ntfs.c:446-448 | one device derives one record under one sequence number at most, whatever was asked for |
| NtfsBytes.DerivedSegments | kernel/dm-paguro/pg_ntfs.c:309-356 | every segment of a derived file lies in a live record that is its own or names it with its age, and its header bytes are those of a plain unnamed $DATA |
| NtfsBytes.DerivedList | kernel/dm-paguro/pg_ntfs.c:362-398 | an attribute list outside the record has no flags, starts at VCN 0, is initialised to its end and at most 64 KiB |
| NtfsBytes.DerivedSize | kernel/dm-paguro/pg_ntfs.c:537-546 | the size derived is the one stated at 0x30 of the first segment, initialised to its end, and the runs hold the allocated size at 0x28 |
| NtfsBytes.ProbedDirty | kernel/dm-paguro/pg_ntfs.c:608-639 | the dirty bit probed is bit 0 of byte 10 of a resident $VOLUME_INFORMATION in record 3 |
| Slots.FindConflict | kernel/dm-paguro/pg_ctl.c:258-273 | reports a reserved range, else another live claim on the volume, exactly when the file shares a sector with it |
| Slots.ReserveRanges | kernel/dm-paguro/pg_ctl.c:352-361 | accepts exactly non-empty ranges inside the volume, and keeps the normal form of their union |
| Slots.ScanClaims | kernel/dm-paguro/pg_ctl.c:399-408 | the file is claimed already, or the slot is the first free one |
| Slots.Compare | kernel/dm-paguro/pg_ctl.c:576-600 | the cross-check is exact: agreement holds if and only if all ranges are well formed and the first n sectors of both lists are the same sequence |
| Slots.MaskExact | kernel/dm-paguro/dm-paguro-main.c:135-142 | masking the or of two numbers with a power of two less one gives 0 exactly when both are multiples of it |
| Slots.CheckAligned | kernel/dm-paguro/dm-paguro-main.c:135-142 | the masking loop accepts exactly extents that start and end on logical blocks |
| Slots.AnswerImage | kernel/dm-paguro/dm-paguro-main.c:186-210 | view A on one claim: refused by state or beyond the file, else the longest physical run, cut to the request |
| Slots.AnyClaimHit | kernel/dm-paguro/dm-paguro-main.c:399-407 | true exactly when the request wraps or names a sector of a live claim on the volume |
| Ioctls.DecideAdd | kernel/dm-paguro/pg_ctl.c:296-383 | PG_VOLUME_ADD decides what the abstract machine does on exactly what the devices show; refused past the first checks only when they show no volume, or a reserved range is bad |
| Ioctls.DecideClaim | kernel/dm-paguro/pg_ctl.c:385-455 | PG_CLAIM likewise: the abstract step on exactly what the device says of the file, also when it says nothing |
| Ioctls.DecideGrow | kernel/dm-paguro/pg_ctl.c:470-544 | PG_GROW likewise on a fresh exact derivation: stop writes, leave alone, keep, or extend and uncheck; Effects.GrowExact says which, Lifetimes.LostStopsWrites for how long |
| Ioctls.DecideCrossCheck | kernel/dm-paguro/pg_ctl.c:546-613 | PG_CROSSCHECK likewise: agreement marks the claim, disagreement ends it |
| Control.Module.constructor | kernel/dm-paguro/pg_ctl.c:20-34 | starts in the initial state with an empty run |
| Control.Module.VolumeAdd | kernel/dm-paguro/pg_ctl.c:296-383 | one abstract step, on exactly what the devices show; the run so far stays a run |
| Control.Module.ClaimFile | kernel/dm-paguro/pg_ctl.c:385-455 | one abstract step, on exactly what the device says of the file |
| Control.Module.Grow | kernel/dm-paguro/pg_ctl.c:470-544 | one abstract step, on exactly what the device says of the same file now, with the effect Effects.GrowExact gives |
| Control.Module.CrossCheck | kernel/dm-paguro/pg_ctl.c:546-613 | one abstract step |
| Control.Module.Release | kernel/dm-paguro/pg_ctl.c:615-635 | one abstract step; busy under a live view-A table |
| Control.Module.VolumeRemove | kernel/dm-paguro/pg_ctl.c:637-651 | one abstract step; busy under a claim or a view |
| Control.Module.ImageCtr | kernel/dm-paguro/dm-paguro-main.c:81-173 | one abstract step; past the claim's own state, a table is built exactly when the device was found, the extents are block-aligned and the payload passed; the state it needs is Effects.ImageExact's |
| Control.Module.ImageDtr | kernel/dm-paguro/dm-paguro-main.c:175-184 | one abstract step |
| Control.Module.ImageMap | kernel/dm-paguro/dm-paguro-main.c:186-210 | one abstract step, the outcome the abstract machine allows |
| Control.Module.ViewCtr | kernel/dm-paguro/dm-paguro-main.c:286-347 | one abstract step; B and C exclude each other, dirty and read-only volumes restrict the mode |
| Control.Module.ViewDtr | kernel/dm-paguro/dm-paguro-main.c:349-360 | one abstract step; the last table frees the mode |
| Control.Module.ViewMap | kernel/dm-paguro/dm-paguro-main.c:388-430 | one abstract step, the outcome the abstract machine allows |
| Control.Module.Guarded | kernel/dm-paguro/dm-paguro-main.c:186-210 | of everything the object ever passed on to the plaintext device of a claim's volume, only the claim's own view A reached its sectors, and view B of another volume registered with that device as its raw one |
| Control.CrossedRun | kernel/dm-paguro/pg_ctl.c:312-318 | the module itself, on any devices that show two clean volumes and a file: if the second's raw device is the first's plaintext device, its view B reads any sector of the claimed file |
| Effects.AddExact | kernel/dm-paguro/pg_ctl.c:296-383 | PG_VOLUME_ADD succeeds exactly with known flags, devices no volume has in that role, a free slot, a volume on them and ranges inside it; one slot becomes that volume, as asked and as probed |
| Effects.RemoveExact | kernel/dm-paguro/pg_ctl.c:637-651 | PG_VOLUME_REMOVE frees exactly a volume that no claim and no table uses |
| Effects.ClaimExact | kernel/dm-paguro/pg_ctl.c:385-455 | PG_CLAIM succeeds exactly for a file not claimed yet, derived with data, that shares no sector with a reserved range or another claim; the claim has the derived sectors and as many data sectors as the size |
| Effects.ReleaseExact | kernel/dm-paguro/pg_ctl.c:615-635 | PG_RELEASE frees exactly a claim that no view-A table uses |
| Effects.GrowExact | kernel/dm-paguro/pg_ctl.c:496-533 | PG_GROW: read-only exactly when the map is gone, an old sector moved or data is missing; unchanged on a clash; else the derived map and size, checked only if the same |
| Effects.CrossCheckExact | kernel/dm-paguro/pg_ctl.c:596-604 | PG_CROSSCHECK checks the claim on agreement over all its data and refuses it otherwise |
| Effects.ImageExact | kernel/dm-paguro/dm-paguro-main.c:109-156 | a view-A table is built exactly over a live, checked, unrefused claim, within its limit, not writable where that is read-only, past the three outer checks |
| Effects.ViewExact | kernel/dm-paguro/dm-paguro-main.c:308-337 | a table of views B and C is built exactly over a volume in no other view, never writable on a read-only volume, never view B on a dirty one, on the view's device |
| Effects.ImageServes | kernel/dm-paguro/dm-paguro-main.c:186-210 | view A refuses exactly by state or past the file; everything else goes as far as asked or as the physical run goes |
| Effects.ViewServes | kernel/dm-paguro/dm-paguro-main.c:388-430 | views B and C refuse exactly what names a claimed sector or, with claims there, wraps; everything else passes as it is |
| Lifetimes.AgreedBeforeBuilt | kernel/dm-paguro/dm-paguro-main.c:114-121 | every run: a view-A table exists only if its claim was checked and not refused when it was built, after an agreement on exactly the map and limit of that moment |
| Lifetimes.AgreedBeforeUse | kernel/dm-paguro/dm-paguro-main.c:186-210 | every run: view A passes nothing on before an agreement, and the map it uses starts with the one agreed on |
| Lifetimes.LostStopsWrites | kernel/dm-paguro/pg_ctl.c:521-523 | every run: after a growth that found no map, moved an old sector or lost data, no write through that claim's view A is passed on until release |
| Lifetimes.DisagreementStops | kernel/dm-paguro/pg_ctl.c:599-604 | every run: after a cross-check that disagrees, nothing through that claim's view A is passed on until release |
| Lifetimes.MapOrigin | kernel/dm-paguro/pg_ctl.c:275-283 | every reachable state: a claim's map is the one last derived for it, with exactly the size's data sectors, a VHD's footer included |
| Lifetimes.ClaimOrigin | kernel/dm-paguro/pg_ctl.c:385-455 | every reachable state: a live claim is of the volume, record, sequence number and format some PG_CLAIM asked for, live ever since |
| Lifetimes.VolumeOrigin | kernel/dm-paguro/pg_ctl.c:296-383 | every reachable state: a live volume has the devices, flags and reserved ranges it was added with and the geometry and dirty bit probed then |
| Lifetimes.AddedReadOnly | kernel/dm-paguro/pg_ctl.h:59-64 | every run: on a volume added with flag 1, or dirty then, view A passes no write and no table of views B and C is writable; a dirty one is never in view B |
| Lifetimes.ReservedStays | kernel/dm-paguro/pg_ctl.c:258-273 | every reachable state: no claim holds a sector of the ranges its volume was added with |
| Lifetimes.RefusalsCounted | kernel/dm-paguro/dm-paguro-main.c:399-430 | every run: a volume's two counters are the requests its views refused, readahead apart |
| Lifetimes.ClaimRefusalsCounted | kernel/dm-paguro/dm-paguro-main.c:186-210 | every run: a claim's counter is the requests its view A refused |
| Isolation.InvStep | kernel/dm-paguro/pg_ctl.h:6-9 | every step keeps: claims apart and off reserved sectors, repeat-free maps holding their limit, exact table counts, fitting tables |
| Isolation.RunInv | kernel/dm-paguro/pg_ctl.h:6-9 | hence in every reachable state |
| Guarantees.ImageIsolation | kernel/dm-paguro/dm-paguro-main.c:186-210 | every run: view A reaches only its claim's own sectors, in file order, never as a write to a read-only claim nor once refused |
| Guarantees.ViewIsolation | kernel/dm-paguro/dm-paguro-main.c:388-430 | every run: a request views B and C pass on touches no sector of any live claim on the volume, whatever its state |
| Guarantees.OnlyThroughViewA | kernel/dm-paguro/dm-paguro-main.c:186-210 | every run: a claimed sector is reached through its own volume's tables only by view A of that very claim |
| Devices.DevicesDistinct | kernel/dm-paguro/pg_ctl.c:312-318 | every reachable state: no two volumes have one raw device, or one plaintext device |
| Devices.ReachedOnDevice | kernel/dm-paguro/dm-paguro-main.c:328-335 | every run: whatever reaches a claimed sector on its plaintext device is the claim's own view A, or view B of another volume whose raw device that is |
| Devices.OnlyThroughOwnView | kernel/dm-paguro/dm-paguro-main.c:388-430 | every run: while no other live volume's raw device is the claim's plaintext device, a claimed sector is reached there only by its own view A |
| Devices.BreachExactly | kernel/dm-paguro/pg_ctl.c:312-318 | of two volumes PG_VOLUME_ADD takes together, some run reaches a claimed sector of the first past its view A if and only if its plaintext device is the second's raw device |
| Guarantees.ClaimAcross | kernel/dm-paguro/pg_ctl.c:470-544 | one step never moves a mapped sector, shrinks a limit or clears a refusal; CHECKED survives only on the same map |
| Guarantees.Stability | kernel/dm-paguro/dm-paguro-main.c:122-125 | while a view-A table lives its claim and mapped sectors stay, through any growth, and its length stays within a limit the map holds |
| Guarantees.SameTranslation | kernel/dm-paguro/dm-paguro-main.c:186-210 | two requests that both cover one logical sector of a live table, wherever they start, send it to one physical sector |
| Guarantees.CheckedMeansAgreed | kernel/dm-paguro/pg_ctl.c:506-533 | CHECKED in any reachable state means an agreement was shown for the claim's current map and limit |
| Guarantees.Lifecycle | kernel/dm-paguro/pg_ctl.c:615-651 | every reachable state: counts are the live tables, never CHECKED and REFUSED, one view per volume, no writable table on a read-only volume |
| Guarantees.VolumeAcross | kernel/dm-paguro/pg_ctl.c:637-651 | no step frees or replaces a volume under a claim or a table |
| Guarantees.ClaimPersists | kernel/dm-paguro/pg_ctl.c:615-635 | a claim that stays live keeps identity, sectors and refusals, and the volume under it |
| Guarantees.ReadOnlyVolume | kernel/dm-paguro/pg_ctl.h:59-64 | no write is ever passed on by view A on a dirty or read-only volume |
| BitLocker.CheckRegions | crates/paguro-core/src/bde.rs:1271-1294 | the nested loops, saturating ends included, accept exactly regions inside the volume no two of which meet |
| BitLocker.NewLayout | crates/paguro-core/src/bde.rs:1237-1327 | accepts exactly the well-formed, matching, fully described layouts in a supported state |
| BitLocker.AcceptedStates | crates/paguro-core/src/bde.rs:1237-1327 | no used-space-only volume, no unknown cipher and no conversion under way is accepted |
| BitLocker.Map | crates/paguro-core/src/bde.rs:1342-1390 | refines the pointwise view: a run of at least 1 inside the volume, each unit of it the same kind of source in step, and marked encrypted exactly when its physical unit lies below the encrypted size |
| BitLocker.EncryptedExact | crates/paguro-core/src/bde.rs:1355-1389 | a view unit is marked encrypted exactly when the physical unit it is read from starts below the encrypted size |
| BitLocker.DiskSource | crates/paguro-core/src/bde.rs:1353-1389 | no disk source lies in the original boot-sector area or a metadata region, or outside the volume |
| BitLocker.Injective | crates/paguro-core/src/bde.rs:1353-1389 | two different view units are never read from one physical unit |
| BitLocker.IdentityExact | crates/paguro-core/src/bde.rs:1342-1408 | a 512-byte sector is read from itself exactly outside the boot-sector area and the hidden regions |
| BitLocker.IdentityOnData | crates/paguro-core/src/bde.rs:1392-1408 | hence outside reserved_ranges the view is the identity |
| BitLocker.ProtectedTogether | crates/paguro-core/src/bde.rs:1392-1419 | protecting a plaintext sector outside them protects the same ciphertext sector and no other plaintext sector |
| BitLocker.OverlapsReserved | crates/paguro-core/src/bde.rs:1413-1419 | true exactly when some extent meets a reserved range, and so, for non-empty extents, shares a sector |
| BitLocker.ReservedExact | crates/paguro-core/src/bde.rs:1392-1410 | reserved_ranges are exactly the sectors of the boot-sector area, its copy, the metadata regions and the further one |
| Ciphertext.ClaimedSectorsAlign | crates/paguro-core/src/bde.rs:1392-1419 | every run, layout regions reserved: a claimed sector is read from the same ciphertext sector and nothing else is |
| Ciphertext.CiphertextIsolation | kernel/dm-paguro/dm-paguro-main.c:388-430 | every run: what the volume's own view B passes on to the raw device reaches no ciphertext of a claimed sector |
| Ciphertext.ReachedOnRaw | kernel/dm-paguro/dm-paguro-main.c:328-335 | every run: whatever reaches the ciphertext of a claimed sector on the raw device goes through another volume whose plaintext device that is |
| Ciphertext.CipherBreachExactly | kernel/dm-paguro/pg_ctl.c:312-318 | of two volumes PG_VOLUME_ADD takes together, the first on its own raw device, some run reaches that ciphertext if and only if the device is the second's plaintext device |
| Decryption.ViewExists | crates/paguro-boot/src/bde.rs:250-260 | there is a byte view that is, unit by unit, what the layout and the cipher make of the device |
| Decryption.ViewUnique | crates/paguro-boot/src/bde.rs:250-260 | and only one, on the volume |
| Decryption.ViewBytes | crates/paguro-boot/src/bde.rs:296-330 | the view in bytes: boot sectors from their copy, zeros over the hidden regions, the rest in place; decrypted under the physical unit's number exactly below the encrypted size |
| Decryption.ViewExtremes | crates/paguro-boot/src/bde.rs:296-330 | so physical bytes on a volume not encrypted at all, and only their decryption on a fully encrypted one |
| Blocks.UnitBlockExact | crates/paguro-boot/src/bde.rs:408-421 | a unit is looked for where it starts exactly when the block size divides the unit size, for every unit but the first |
| Blocks.ReadPartUnits | crates/paguro-boot/src/bde.rs:408-421 | Range exactly when the block number does not fit 64 bits; success fills the slice from the computed block, which is the unit's own bytes when blocks divide units |
| Decryption.Reader.New | crates/paguro-boot/src/bde.rs:262-272 | starts with an empty cache over that view, on any unit device or on a partition whose blocks divide the units |
| Decryption.Reader.Passthrough | crates/paguro-boot/src/bde.rs:275-285 | the same without a layout |
| Decryption.Reader.DecryptRun | crates/paguro-boot/src/bde.rs:315-323 | decrypting in place unit by unit, tweak by tweak, leaves the view's bytes |
| Decryption.Reader.Read | crates/paguro-boot/src/bde.rs:296-330 | misaligned is Alignment, past the end is Range, and otherwise it fails only as the device does, over a partition as Io or for a block number past 64 bits; success fills exactly the slice with the view's bytes |
| Decryption.Reader.LoadUnit | crates/paguro-boot/src/bde.rs:362-372 | a set cached unit always holds that unit's view bytes |
| Decryption.Reader.ReadSectors | crates/paguro-boot/src/bde.rs:334-385 | any alignment, 512- or 4096-byte units, any sequence of calls: success fills the buffer with the view's bytes; errors as for whole units |
| BootTrace.ExtendsShape | crates/paguro-boot/src/machine.rs:696-724 | the extend sequence of a safe trace is a prefix of [the configuration's bytes, boot-taint] or of [boot-taint]; without a TPM it is empty |
| BootTrace.NothingBeforeTaint | crates/paguro-boot/src/machine.rs:351-430 | with a TPM nothing is listed, located, handed off or started before the boot taint |
| BootTrace.UnsealExactlyLoaded | crates/paguro-boot/src/machine.rs:1621-1623 | the tpm rung's unseal is submitted only when PCR 12, zero before, was extended with exactly the configuration, which enables it for the open volume, and that has the seal |
| BootTrace.StartedWithKey | crates/paguro-boot/src/machine.rs:400-443 | an image is started only after a handoff, which on a BitLocker volume carries a VMK that volume opens under |
| BootTrace.LoadedFromZero | crates/paguro-boot/src/machine.rs:696-724 | PCR 12 takes the configuration only after reading zero, and exactly the bytes that were parsed |
| BootTrace.ParsedGenuine | crates/paguro-boot/src/machine.rs:606-640 | only the configuration on disk is parsed, and under Secure Boot only when the stored hash is there and equals its hash |
| BootTrace.PublishedOpens | crates/paguro-boot/src/machine.rs:1292-1299 | a handoff of a BitLocker volume carries a key that volume opens under, tried by the rung it names; of another, no rung, and never over one with a TPM seal |
| BootTrace.RungTaken | crates/paguro-boot/src/machine.rs:1621-1692 | the rung a handoff names was taken: the TPM's unseal was submitted before, or the volume has that rung's seal |
| BootTrace.RefusedOnce | crates/paguro-boot/src/machine.rs:1664-1690 | after a TPM refusal other than a wrong password no unseal of the tpm rung is submitted |
| Ratchet.Machine.Cap | crates/paguro-boot/src/machine.rs:782-790 | the boot taint once, and only where it may come |
| Ratchet.Machine.EnterRecovery | crates/paguro-boot/src/machine.rs:793-807 | recovery caps first |
| Ratchet.Machine.Stage1 | crates/paguro-boot/src/machine.rs:584-640 | hands on exactly the configuration that is on disk and, under Secure Boot, has the stored hash; normal mode exactly then |
| Ratchet.Machine.Stage2 | crates/paguro-boot/src/machine.rs:645-692 | parses exactly what stage 1 handed on, in normal mode; every other mode is capped |
| Ratchet.Machine.LoadTaint | crates/paguro-boot/src/machine.rs:696-724 | from a zero register, a TPM seal on the volume leaves PCR 12 at exactly the configuration and no seal caps it; else recovery |
| Ratchet.Machine.SelectVolume | crates/paguro-boot/src/machine.rs:866-934 | in normal mode the volume is the configured one; otherwise recovery was entered |
| Ratchet.Machine.Accept | crates/paguro-boot/src/machine.rs:1292-1299 | the verdict is the volume's, and the key is kept only on a positive one |
| Ratchet.Machine.TryTpm | crates/paguro-boot/src/machine.rs:1629-1692 | the unseal is submitted under the armed ratchet, and a rung means an accepted key |
| Ratchet.Machine.TryPassword | crates/paguro-boot/src/machine.rs:1558-1627 | free protectors, then the TPM; a rung means an accepted key |
| Ratchet.Machine.Unlock | crates/paguro-boot/src/machine.rs:1351-1462 | every way out of the prompt loop with a rung has an accepted key; the trace stays safe |
| Ratchet.Machine.ChooseTarget | crates/paguro-boot/src/machine.rs:975-1106 | recovery browses only past the taint |
| Ratchet.Machine.HandOff | crates/paguro-boot/src/machine.rs:400-443 | publishes the accepted key and then starts the image |
| Ratchet.Machine.Run | crates/paguro-boot/src/machine.rs:244-443 | every run of the loader, in every world and whatever the user types, leaves a safe trace, and parses the configuration exactly when it is genuine; started means Start came last |
| FilterTable.Table.constructor | windows/minifilter/paguro_flt.c:66-68 | starts empty at generation 1 |
| FilterTable.Table.Lookup | windows/minifilter/paguro_flt.c:81-95 | the file's flags, 0 if unprotected, with the generation |
| FilterTable.Table.Update | windows/minifilter/paguro_flt.c:102-135 | exactly that file's flags change, exactly when there is room or it is there; the count stays exact; the generation moves |
| FilterTable.UpdatedDeny | windows/minifilter/paguro_flt.c:102-135 | the table is a map: an update changes one file's flags, and keys stay unique |
| FilterTable.AcceptsExact | windows/minifilter/paguro_flt.c:102-135 | a change goes through exactly for a protected file, or to protect one while fewer entries are in use than there are |
| FilterTable.InUseUpdated | windows/minifilter/paguro_flt.c:102-135 | one more for a new entry, one fewer for a removed one, else none: the count stays exact |
| FilterCache.InvStep | windows/minifilter/paguro_flt.c:81-135 | every interleaved step, the three lock-free reads included, keeps: unique keys, exact count, cached and held records tagged with the generation they were computed from |
| FilterCache.Coherence | windows/minifilter/paguro_flt.c:185-222 | every interleaving of the three reads with everything else: an answer from a stream context, compared anywhere but between a table change and its generation, on flags fewer than 2^32 changes old, is what a lookup would return; so is 0 for an empty table |
| FilterCache.TableIntact | windows/minifilter/paguro_flt.c:102-135 | every run: unique keys, and the coded increments keep the count that of the used entries |
| FilterCache.StaleAfterWrap | windows/minifilter/paguro_flt.c:97-101 | a run whose cache hit, any multiple of 2^32 changes later, returns flags the table no longer holds |
| FilterCache.StaleExactly | windows/minifilter/paguro_flt.c:97-101 | some run answers wrong flags n changes old if and only if n is a positive multiple of 2^32 |
| FileReads.ReadPartition | crates/paguro-boot/src/stage4.rs:123-180 | 512- or 4096-byte blocks: errors exactly when they apply; success fills the slice with the partition's sectors and nothing else |
| FileReads.OpenBitLocker | crates/paguro-boot/src/bde.rs:560-614 | opens exactly when the byte size fits 64 bits, blocks divide units and the layout is acceptable on the partition; every field of the layout but its size is the header's or the metadata's, and its size is the partition's whole units |
| FileReads.ShowsSomething | crates/paguro-boot/src/bde.rs:424-448 | every readable volume has a plaintext: the partition, or its decrypted view |
| FileReads.UnitInReach | crates/paguro-boot/src/bde.rs:408-421 | on a volume so opened every unit has a 64-bit block number, inside the partition |
| FileReads.HoldsSomething | crates/paguro-boot/src/stage4.rs:192-200 | the extents of a payload define its bytes on any volume |
| FileReads.ReadVolume | crates/paguro-boot/src/bde.rs:432-448 | the sectors stage 4 reads are the partition's, or those of its decrypted view read in blocks; each error exactly when it applies, and no block number overflows on an opened volume |
| FileReads.ReadPayload | crates/paguro-boot/src/stage4.rs:203-224 | over a partition or its decrypted view: returns exactly the file's logical sectors in order; refused exactly when one is missing, outside the payload or outside the volume, unless the platform fails first |
| FileReads.CopyImage | crates/paguro-boot/src/stage4.rs:872-916 | over the same readers and any runs, saturating products included: the buffer holds exactly the first `size` bytes the runs map, partial last sector included; fails only with the platform or when some byte is unmapped or outside the volume |
| FileReads.ByteInCluster | crates/paguro-boot/src/stage4.rs:872-916 | those bytes are, cluster by cluster, the ones the runs map |

## Left out

- Allocation failures, interrupted waits and copy failures of the kernel module: they return before any state changes.
- Bio submission, `pg_reader_read`'s bounce page, device opens, the tripwire, status output and table printing.
- `pg_payload_check` and its GPT, ext4, ISO 9660 and FAT recognisers: long field comparisons; their verdict is a parameter.
- The text parsing of table arguments, and `PG_STATUS`, which only reads.
- Parsing of BitLocker headers, entries and metadata, and the comparison of its three copies; key unwrapping; the stretch, KDFs, AES-CCM, SHA-256 and XTS themselves.
- The TPM wire protocol: reads, extends and unseals are events with arbitrary outcomes.
- The loader's contents of screens, path texts, provisioning and handoff encoding, boot-option variables, and the `[UI]` preferences.
- `config.rs` and `ini` parsing and the write/parse round trip.
- The minifilter's file identification, message validation, refusals and reports around the table.
- The Rust `ntfs::gather` and `ntfs::extents`: the C functions they match bit for bit are modelled.
- FileReads.ReadPayload: takes extents that do not run backwards; the wrap-around of `gather` on others is not modelled, as no code produces them.
- NtfsFile.Walk: which error a refused file gets is as coded but not stated.
- Decryption.Reader.Read: the device is fixed over the calls; a device changing under the reader is not modelled.
