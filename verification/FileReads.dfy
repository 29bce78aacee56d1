/** crates/paguro-boot/src/stage4.rs: reading a file of the volume -- sectors of a partition with
    512- or 4096-byte blocks, a payload gathered through its extents, and the run-copy loop that
    loads an EFI image. */
module FileReads {
  import opened Words
  import opened Extents
  import opened Runlist
  import opened Ntfs
  import opened Buffers
  import opened Blocks
  import opened BitLocker
  import opened Decryption
  import Claim

  /** Device stands for whatever the platform's own read fails with. */
  datatype PlatformError = Unsupported | TooLarge | Device

  // ---- PartitionReader::read -----------------------------------------------

  /** A partition in 512-byte sectors, saturating. */
  function SectorCount(p: Partition): nat {
    if p.blocks * (p.blockSize / 512) < TWO64 then p.blocks * (p.blockSize / 512) else TWO64 - 1
  }

  /** One turn of the loop on 4096-byte blocks: whole blocks straight through, an edge via a bounce. */
  method ReadSome(p: Partition, disk: Bytes, sector: u64, left: nat, buf: array<byte>, at: nat) returns (ok: bool, took: nat)
    requires p.blockSize == 4096 && left > 0 && at + left * 512 <= buf.Length && sector / 8 + p.first < TWO64
    modifies buf
    ensures ok ==> 0 < took <= left && Filled(buf, at, took * 512, PartitionBytes(p, disk), sector * 512)
    ensures OnlyWithin(buf, at, left * 512)
  {
    var lba, within := p.first + sector / 8, sector % 8;
    assert lba * 4096 == p.first * 4096 + (sector * 512 - within * 512);
    if within == 0 && left >= 8 {
      took := left / 8 * 8;
      ok := ReadBlocks(disk, 4096, lba, buf, at, took * 512);
      if ok {
        OnPartition(p, disk, buf, at, took * 512, lba * 4096, sector * 512);
      }
      return;
    }
    var block := new byte[4096](_ => 0);
    took := if 8 - within < left then 8 - within else left;
    ok := ReadBlocks(disk, 4096, lba, block, 0, 4096);
    if !ok {
      return;
    }
    FilledPart(block, 0, 4096, disk, lba * 4096, within * 512, took * 512);
    CopyBytes(block, within * 512, buf, at, took * 512, disk, lba * 4096 + within * 512);
    OnPartition(p, disk, buf, at, took * 512, lba * 4096 + within * 512, sector * 512);
  }

  method CopyBytes(src: array<byte>, from: nat, buf: array<byte>, at: nat, n: nat, ghost f: Bytes, ghost a: int)
    requires src != buf && from + n <= src.Length && at + n <= buf.Length && Filled(src, from, n, f, a)
    modifies buf
    ensures Filled(buf, at, n, f, a)
    ensures OnlyWithin(buf, at, n)
  {
    for j := 0 to n
      invariant forall q :: at <= q < at + j ==> buf[q] == f(a + (q - at))
      invariant OnlyWithin(buf, at, n)
    {
      assert src[from + j] == f(a + (from + j - from));
      buf[at + j] := src[from + j];
    }
  }

  /** PartitionReader::read: whole sectors of the partition into buf[from..from + len). */
  method ReadPartition(p: Partition, disk: Bytes, sector: u64, buf: array<byte>, from: nat, len: nat) returns (e: Option<PlatformError>)
    requires Sound(p) && from + len <= buf.Length
    modifies buf
    ensures e == Some(Unsupported) <==> len == 0 || len % 512 != 0
    ensures e == Some(TooLarge) <==> len != 0 && len % 512 == 0 && sector + len / 512 > SectorCount(p)
    ensures len != 0 && len % 512 == 0 && sector + len / 512 <= SectorCount(p) ==> e == None || e == Some(Device)
    ensures e == None ==> Filled(buf, from, len, PartitionBytes(p, disk), sector * 512)
    ensures OnlyWithin(buf, from, len)
  {
    var n := len / 512;
    if len == 0 || len % 512 != 0 {
      return Some(Unsupported);
    }
    if sector + n >= TWO64 || sector + n > SectorCount(p) {
      return Some(TooLarge);
    }
    if p.blockSize == 512 {
      var ok := ReadBlocks(disk, 512, p.first + sector, buf, from, len);
      if ok {
        OnPartition(p, disk, buf, from, len, (p.first + sector) * 512, sector * 512);
      }
      return if ok then None else Some(Device);
    }
    var done: nat := 0;
    while done < n
      invariant done <= n
      invariant forall q :: from <= q < from + done * 512 ==> buf[q] == PartitionBytes(p, disk)(sector * 512 + (q - from))
      invariant OnlyWithin(buf, from, len)
      decreases n - done
    {
      var ok, took := ReadSome(p, disk, sector + done, n - done, buf, from + done * 512);
      if !ok {
        return Some(Device);
      }
      done := done + took;
    }
    e := None;
  }

  // ---- SectorRead ----------------------------------------------------------

  /** What stage 4 reads a volume through: PartitionReader, or BdeSectors with its layout and key. */
  datatype Volume = Plain(part: Partition) | Bde(part: Partition, layout: Layout, xts: Cipher)

  /** What the opener leaves: blocks that divide the units, and a layout of the partition's whole units. */
  ghost predicate Opened(part: Partition, l: Layout) {
    && part.blockSize > 0 && l.bps > 0 && l.bps % part.blockSize == 0
    && part.blocks * part.blockSize < TWO64
    && l.volumeSize == part.blocks * part.blockSize - part.blocks * part.blockSize % l.bps
  }

  /** The metadata regions of a layout lie in the partition, on whole blocks. */
  ghost predicate RegionsOnBlocks(part: Partition, p: Parsed)
    requires part.blockSize > 0
  {
    forall i :: 0 <= i < |p.metadata| ==> p.metadata[i] + REGION_SIZE <= part.blocks * part.blockSize && p.metadata[i] % part.blockSize == 0
  }

  lemma {:induction false} AcceptableOnBlocks(part: Partition, p: Parsed)
    requires Sound(part) && p.bps % part.blockSize == 0 && part.blocks * part.blockSize < TWO64 && Acceptable(p, part.blocks * part.blockSize)
    ensures RegionsOnBlocks(part, p)
  {
    var size: u64 := part.blocks * part.blockSize;
    forall i | 0 <= i < |p.metadata| ensures p.metadata[i] + REGION_SIZE <= size && p.metadata[i] % part.blockSize == 0 {
      MetadataInside(Described(p, size), size, i);
      OnBlocks(p.metadata[i], p.bps, part.blockSize);
    }
  }

  lemma {:induction false} MetadataInside(l: Layout, size: nat, i: nat)
    requires WellFormed(l) && l.volumeSize <= size && i < 3
    ensures l.metadata[i] + REGION_SIZE <= size && l.metadata[i] % l.bps == 0
  {
    assert Regions(l)[i + 2] == Region(l.metadata[i], REGION_SIZE);
    assert Aligned(l.metadata[i], l.bps);
  }

  lemma {:induction false} OnBlocks(x: nat, bps: nat, bs: nat)
    requires (bs == 512 || bs == 4096) && (bps == 512 || bps == 4096) && bps % bs == 0 && x % bps == 0
    ensures x % bs == 0
  {
    if bps != bs {
      DivParts(x, 4096);
      DivOf(x, x / 4096 * 8, 512);
    }
  }

  /** Every field of the layout but its size is one of the header or the metadata. */
  ghost predicate FieldsOf(l: Layout, p: Parsed) {
    && l.bps == p.bps && l.metadata == p.metadata && l.relocOffset == p.headerOffset && l.relocLen == p.headerSectors * p.bps
    && (l.extra == if p.extra.Some? then Some(p.extra.value.off) else None)
    && l.encryptedSize == p.encryptedSize && (l.partial <==> p.encryptedSize < l.volumeSize)
  }

  /** open_bitlocker, from the parsed header and metadata on; `agree` tells whether the three copies of the
      metadata could be read and are the same. */
  method OpenBitLocker(part: Partition, p: Parsed, agree: bool) returns (l: Option<Layout>)
    requires Sound(part) && |p.metadata| == 3
    ensures l.Some? <==> && agree && p.bps % part.blockSize == 0
                         && part.blocks * part.blockSize < TWO64 && Acceptable(p, part.blocks * part.blockSize)
    ensures l.Some? ==> WellFormed(l.value) && Opened(part, l.value) && FieldsOf(l.value, p)
  {
    if part.blocks * part.blockSize >= TWO64 || p.bps % part.blockSize != 0 {
      return None;
    }
    var size: u64 := part.blocks * part.blockSize;
    if Acceptable(p, size) {
      AcceptableOnBlocks(part, p);
    }
    for i := 0 to 3
      invariant forall j :: 0 <= j < i ==> p.metadata[j] + REGION_SIZE <= size && p.metadata[j] % part.blockSize == 0
    {
      if p.metadata[i] + REGION_SIZE >= TWO64 || p.metadata[i] + REGION_SIZE > size || p.metadata[i] % part.blockSize != 0 {
        return None;
      }
    }
    if !agree {
      return None;
    }
    var r := NewLayout(p, size);
    l := if r.Ok? then Some(r.layout) else None;
  }

  ghost predicate Readable(v: Volume) {
    Sound(v.part) && (v.Bde? ==> WellFormed(v.layout) && KeepsLength(v.xts) && Opened(v.part, v.layout))
  }

  /** The volume's plaintext: the partition's bytes, or their decrypted view. */
  ghost predicate Shows(v: Volume, disk: Bytes, view: Bytes)
    requires Readable(v)
  {
    var dev := PartitionBytes(v.part, disk);
    match v
    case Plain(p) => forall a :: view(a) == dev(a)
    case Bde(p, l, xts) => Decrypts(view, dev, Some(l), xts, l.bps, l.volumeSize / l.bps)
  }

  /** There is such a plaintext. */
  lemma {:induction false} ShowsSomething(v: Volume, disk: Bytes) returns (view: Bytes)
    requires Readable(v)
    ensures Shows(v, disk, view)
  {
    view := PartitionBytes(v.part, disk);
    if v.Bde? {
      DivParts(v.layout.volumeSize, v.layout.bps);
      view := ViewExists(view, Some(v.layout), v.xts, v.layout.bps, v.layout.volumeSize / v.layout.bps);
    }
  }

  /** Its 512-byte sectors. */
  function VolumeSectors(v: Volume): nat
    requires v.Bde? ==> v.layout.bps > 0
  {
    match v
    case Plain(p) => SectorCount(p)
    case Bde(p, l, xts) => Reach(l.volumeSize / l.bps, l.bps)
  }

  /** Every unit of an opened volume starts at a block of the partition, which is a 64-bit number. */
  lemma {:induction false} UnitInReach(v: Volume, u: nat)
    requires v.Bde? && Readable(v) && u < v.layout.volumeSize / v.layout.bps
    ensures v.part.first <= UnitBlock(v.part, v.layout.bps, u) < v.part.first + v.part.blocks <= TWO64
  {
    var bs, bps := v.part.blockSize, v.layout.bps;
    UnitStart(v.part, bps, u);
    DivBelow(v.layout.volumeSize, bps, u + 1);
    TimesPlus(u, 1, bps);
    assert u * bps < v.part.blocks * bs;
    TimesPlus(v.part.first, v.part.blocks, bs);
    MulBelow(UnitBlock(v.part, bps, u), v.part.first + v.part.blocks, bs);
  }

  /** How a read of n sectors ends, by what it asks for alone: with the platform's leave where they lie
      in the volume. */
  ghost predicate Ends(e: Option<PlatformError>, v: Volume, sector: nat, n: nat)
    requires v.Bde? ==> v.layout.bps > 0
  {
    if n == 0 then e == Some(Unsupported)
    else if sector + n > VolumeSectors(v) then e == Some(TooLarge)
    else e == None || e == Some(Device)
  }

  /** The errors of the decrypted view as the platform's. */
  function Mapped(e: Option<ReadError>): Option<PlatformError> {
    match e
    case None => None
    case Some(Io) => Some(Device)
    case Some(Range) => Some(TooLarge)
    case Some(Alignment) => Some(Unsupported)
  }

  /** Inside an opened volume no read runs out of block numbers. */
  lemma {:induction false} FailsAsIo(v: Volume, r: Reader, e: ReadError)
    requires v.Bde? && Readable(v) && r.io.PartIo? && r.io.part == v.part && r.io.unitSize == v.layout.bps
    requires r.layout == Some(v.layout) && r.units == v.layout.volumeSize / v.layout.bps && r.MayFail(e)
    ensures e == Io
  {
    forall u: nat | u < r.units ensures !Beyond(r.io, u) {
      UnitInReach(v, u);
    }
  }

  /** BdeSectors::read: a decrypting reader over the partition's blocks, made for the call. */
  method ReadDecrypted(v: Volume, disk: Bytes, ghost view: Bytes, sector: u64, buf: array<byte>, at: nat, n: nat) returns (e: Option<PlatformError>)
    requires v.Bde? && Readable(v) && Shows(v, disk, view) && at + n * 512 <= buf.Length
    modifies buf
    ensures Ends(e, v, sector, n)
    ensures e == None ==> Filled(buf, at, n * 512, view, sector * 512)
    ensures OnlyWithin(buf, at, n * 512)
  {
    if n == 0 {
      return Some(Unsupported);
    }
    var reader := NewReader(v, disk);
    var r := reader.ReadSectors(sector, buf, at, n * 512);
    if r == None {
      SameView(v, PartitionBytes(v.part, disk), view, reader.view, sector, n);
      assert forall q :: at <= q < at + n * 512 ==> buf[q] == reader.view(sector * 512 + (q - at));
    } else if sector + n <= VolumeSectors(v) {
      FailsAsIo(v, reader, r.value);
    }
    e := Mapped(r);
  }

  method NewReader(v: Volume, disk: Bytes) returns (r: Reader)
    requires v.Bde? && Readable(v)
    ensures fresh(r) && fresh(r.cache) && r.Valid() && r.io == PartIo(v.part, v.layout.bps, disk) && r.layout == Some(v.layout) && r.xts == v.xts
    ensures r.bps == v.layout.bps && r.units == v.layout.volumeSize / v.layout.bps
  {
    r := new Reader.New(PartIo(v.part, v.layout.bps, disk), v.layout, v.xts);
    DivOf(v.layout.volumeSize, r.units, r.bps);
  }

  /** The reader's view is the volume's plaintext. */
  lemma {:induction false} SameView(v: Volume, dev: Bytes, view: Bytes, other: Bytes, sector: nat, n: nat)
    requires v.Bde? && Readable(v) && sector + n <= VolumeSectors(v)
    requires var units := v.layout.volumeSize / v.layout.bps;
             Decrypts(view, dev, Some(v.layout), v.xts, v.layout.bps, units) && Decrypts(other, dev, Some(v.layout), v.xts, v.layout.bps, units)
    ensures forall a :: sector * 512 <= a < (sector + n) * 512 ==> view(a) == other(a)
  {
    var l := v.layout;
    var units := l.volumeSize / l.bps;
    DivParts(l.volumeSize, l.bps);
    forall a | sector * 512 <= a < (sector + n) * 512 ensures view(a) == other(a) {
      ReachBytes(units, l.bps, sector + n);
      ViewUnique(view, other, dev, Some(l), v.xts, l.bps, units, a);
    }
  }

  lemma {:induction false} ReachBytes(units: nat, bps: nat, end: nat)
    requires (bps == 512 || bps == 4096) && end <= Reach(units, bps)
    ensures end * 512 <= units * bps
  {
    SectorsFit(units, bps);
  }

  /** SectorRead::read. */
  method ReadVolume(v: Volume, disk: Bytes, ghost view: Bytes, sector: nat, buf: array<byte>, at: nat, n: nat) returns (e: Option<PlatformError>)
    requires Readable(v) && Shows(v, disk, view) && at + n * 512 <= buf.Length && sector < TWO64
    modifies buf
    ensures Ends(e, v, sector, n)
    ensures e == None ==> Filled(buf, at, n * 512, view, sector * 512)
    ensures OnlyWithin(buf, at, n * 512)
  {
    match v {
      case Plain(p) =>
        e := ReadPartition(p, disk, sector, buf, at, n * 512);
        assert e == None ==> forall q :: at <= q < at + n * 512 ==> buf[q] == PartitionBytes(p, disk)(sector * 512 + (q - at));
      case Bde(p, l, xts) =>
        e := ReadDecrypted(v, disk, view, sector, buf, at, n);
    }
  }

  // ---- Payload::read -------------------------------------------------------

  /** A file's bytes: each logical sector is the one the volume keeps for it. */
  ghost predicate Holds(bytes: Bytes, file: seq<int>, vol: Bytes) {
    forall i :: 0 <= i < |file| ==> Slice(bytes, i * 512, 512) == Slice(vol, file[i] * 512, 512)
  }

  /** There are such bytes. */
  lemma {:induction false} HoldsSomething(file: seq<int>, vol: Bytes) returns (bytes: Bytes)
    ensures Holds(bytes, file, vol)
  {
    bytes := (a: int) => if 0 <= a < |file| * 512 then vol(file[a / 512] * 512 + a % 512) else 0;
    forall i | 0 <= i < |file| ensures Slice(bytes, i * 512, 512) == Slice(vol, file[i] * 512, 512) {
      forall j | 0 <= j < 512 ensures Slice(bytes, i * 512, 512)[j] == Slice(vol, file[i] * 512, 512)[j] {
        assert (i * 512 + j) / 512 == i && (i * 512 + j) % 512 == j;
      }
    }
  }

  /** A physical run of the volume is that stretch of the file. */
  lemma {:induction false} RunBytes(bytes: Bytes, file: seq<int>, lsec: nat, phys: int, left: int, vol: Bytes, j: nat)
    requires Holds(bytes, file, vol) && Claim.InRun(file, lsec, phys, left) && j < left * 512
    ensures bytes(lsec * 512 + j) == vol(phys * 512 + j)
  {
    var i, r := lsec + j / 512, j % 512;
    assert file[i] == phys + j / 512;
    assert Slice(bytes, i * 512, 512)[r] == Slice(vol, file[i] * 512, 512)[r];
  }

  /** So a read of the run is a read of the file. */
  lemma {:induction false} RunFilled(bytes: Bytes, file: seq<int>, lsec: nat, phys: int, left: int, vol: Bytes, buf: array<byte>, at: nat, take: nat)
    requires Holds(bytes, file, vol) && Claim.InRun(file, lsec, phys, left) && take <= left
    requires at + take * 512 <= buf.Length && Filled(buf, at, take * 512, vol, phys * 512)
    ensures Filled(buf, at, take * 512, bytes, lsec * 512)
  {
    forall q | at <= q < at + take * 512 ensures buf[q] == bytes(lsec * 512 + (q - at)) {
      assert buf[q] == vol(phys * 512 + (q - at));
      RunBytes(bytes, file, lsec, phys, left, vol, q - at);
    }
  }

  /** The file's sectors lo..hi exist and lie in the volume. */
  ghost predicate Placed(file: seq<int>, v: Volume, lo: nat, hi: nat)
    requires v.Bde? ==> v.layout.bps > 0
  {
    lo < hi ==> hi <= |file| && forall i :: lo <= i < hi ==> file[i] < VolumeSectors(v)
  }

  /** One turn of the loop: as much of the file as its current extent holds. */
  method ReadExtent(ext: seq<Extent>, v: Volume, disk: Bytes, ghost view: Bytes, ghost bytes: Bytes, lsec: u64, want: nat, buf: array<byte>, at: nat)
    returns (e: Option<PlatformError>, take: nat)
    requires Claim.Forward(ext) && Readable(v) && Shows(v, disk, view) && Holds(bytes, Sectors(ext), view) && want > 0 && at + want * 512 <= buf.Length
    modifies buf
    ensures e == None || e == Some(Device) || (e == Some(TooLarge) && !Placed(Sectors(ext), v, lsec, lsec + want))
    ensures e == None ==> 0 < take <= want && Placed(Sectors(ext), v, lsec, lsec + take)
    ensures e == None ==> Filled(buf, at, take * 512, bytes, lsec * 512)
    ensures OnlyWithin(buf, at, want * 512)
  {
    var left, phys := Claim.Gather(ext, lsec);
    take := if left < want then left else want;
    if left == 0 {
      return Some(TooLarge), 0;
    }
    ghost var file := Sectors(ext);
    assert forall i :: lsec <= i < lsec + take ==> file[i] == phys + (i - lsec);
    e := ReadVolume(v, disk, view, phys, buf, at, take);
    if e == None {
      RunFilled(bytes, file, lsec, phys, left, view, buf, at, take);
    } else if e == Some(TooLarge) {
      assert file[lsec + take - 1] >= VolumeSectors(v);
    }
  }

  /** A request for whole sectors of the payload that exist and lie in the volume. */
  ghost predicate Answerable(file: seq<int>, payload: nat, v: Volume, sector: nat, len: nat)
    requires v.Bde? ==> v.layout.bps > 0
  {
    len % 512 == 0 && sector + len / 512 <= payload && Placed(file, v, sector, sector + len / 512)
  }

  /** Payload::read: logical sectors of a file, in order, through its extents. */
  method ReadPayload(ext: seq<Extent>, payload: u64, v: Volume, disk: Bytes, ghost view: Bytes, ghost bytes: Bytes, sector: u64, buf: array<byte>)
    returns (e: Option<PlatformError>)
    requires Claim.Forward(ext) && Readable(v) && Shows(v, disk, view) && Holds(bytes, Sectors(ext), view)
    modifies buf
    ensures e == None || e == Some(Device) || (e == Some(TooLarge) && !Answerable(Sectors(ext), payload, v, sector, buf.Length))
    ensures e == None ==> Answerable(Sectors(ext), payload, v, sector, buf.Length)
    ensures e == None ==> Filled(buf, 0, buf.Length, bytes, sector * 512)
  {
    var n := buf.Length / 512;
    if sector + n >= TWO64 || buf.Length % 512 != 0 || sector + n > payload {
      return Some(TooLarge);
    }
    var done: nat := 0;
    while done < n
      invariant done <= n && Placed(Sectors(ext), v, sector, sector + done)
      invariant Filled(buf, 0, done * 512, bytes, sector * 512)
      decreases n - done
    {
      var took;
      e, took := ReadExtent(ext, v, disk, view, bytes, sector + done, n - done, buf, done * 512);
      if e.Some? {
        return;
      }
      FilledMore(buf, 0, done * 512, took * 512, bytes, sector * 512);
      done := done + took;
    }
    e := None;
  }

  // ---- the run-copy loop of Stage4::efi_image ------------------------------

  const EFI_READ_CHUNK := 0x10_0000

  /** Where the volume keeps byte j of a file mapped by the runs; None past the last. */
  ghost function ByteAddress(runs: seq<Run>, cb: nat, j: nat): Option<int> {
    if runs == [] then None
    else if j < runs[0].count * cb then Some(runs[0].lcn * cb + j)
    else ByteAddress(runs[1..], cb, j - runs[0].count * cb)
  }

  /** A stretch of a file at byte `off` that runs[i..] map from their start is what all runs map there. */
  ghost predicate Reaches(runs: seq<Run>, cb: nat, i: nat, off: nat)
    requires i <= |runs|
  {
    forall a: nat :: off <= a ==> ByteAddress(runs, cb, a) == ByteAddress(runs[i..], cb, a - off)
  }

  lemma {:induction false} ReachesNext(runs: seq<Run>, cb: nat, i: nat, off: nat)
    requires i < |runs| && Reaches(runs, cb, i, off)
    ensures Reaches(runs, cb, i + 1, off + runs[i].count * cb)
    ensures forall a: nat :: off <= a < off + runs[i].count * cb ==> ByteAddress(runs, cb, a) == Some(runs[i].lcn * cb + (a - off))
  {
    assert runs[i..][1..] == runs[i + 1..];
  }

  /** Byte j lies in the cluster the runs map virtual cluster j / cb to. */
  lemma {:induction false} ByteInCluster(runs: seq<Run>, cb: nat, j: nat)
    requires cb > 0 && forall i :: 0 <= i < |runs| ==> runs[i].lcn + runs[i].count < TWO64
    ensures ByteAddress(runs, cb, j).Some? <==> j / cb < |Clusters(runs)|
    ensures ByteAddress(runs, cb, j).Some? ==> ByteAddress(runs, cb, j).value == Clusters(runs)[j / cb] * cb + j % cb
  {
    DivParts(j, cb);
    if runs != [] {
      var r, rest := runs[0], runs[1..];
      var n := r.count * cb;
      assert Ranges(runs)[1..] == Ranges(rest);
      DivBelow(j, cb, r.count);
      if j < n {
        TimesPlus(r.lcn, j / cb, cb);
      } else {
        ByteInCluster(rest, cb, j - n);
        Shift(j, r.count, cb);
      }
    }
  }

  lemma {:induction false} Shift(j: nat, q: nat, cb: nat)
    requires cb > 0 && q * cb <= j
    ensures (j - q * cb) / cb == j / cb - q && (j - q * cb) % cb == j % cb
  {
    DivParts(j - q * cb, cb);
    TimesPlus((j - q * cb) / cb, q, cb);
    DivOf(j, (j - q * cb) / cb + q, cb);
  }

  /** Whole sectors, many at a time. */
  method CopyWhole(v: Volume, disk: Bytes, ghost vol: Bytes, first: nat, n: nat, buf: array<byte>, off: nat) returns (e: Option<PlatformError>)
    requires Readable(v) && Shows(v, disk, vol) && off + n * 512 <= buf.Length && first < TWO64
    modifies buf
    ensures e == None || e == Some(Device) || (e == Some(TooLarge) && n > 0 && first + n > VolumeSectors(v))
    ensures e == None ==> Filled(buf, off, n * 512, vol, first * 512) && first + n < TWO64
    ensures OnlyWithin(buf, off, n * 512)
  {
    var done: nat := 0;
    while done < n
      invariant done <= n && first + done < TWO64
      invariant forall q :: off <= q < off + done * 512 ==> buf[q] == vol(first * 512 + (q - off))
      invariant OnlyWithin(buf, off, n * 512)
      decreases n - done
    {
      var chunk := if n - done < EFI_READ_CHUNK / 512 then n - done else EFI_READ_CHUNK / 512;
      e := ReadVolume(v, disk, vol, first + done, buf, off + done * 512, chunk);
      if e.Some? {
        return;
      }
      done := done + chunk;
    }
    e := None;
  }

  /** Part of one sector, through a bounce. */
  method CopyTail(v: Volume, disk: Bytes, ghost vol: Bytes, sector: nat, n: nat, buf: array<byte>, at: nat) returns (e: Option<PlatformError>)
    requires Readable(v) && Shows(v, disk, vol) && sector < TWO64 && n <= 512 && at + n <= buf.Length
    modifies buf
    ensures e == None || e == Some(Device) || (e == Some(TooLarge) && sector + 1 > VolumeSectors(v))
    ensures e == None ==> Filled(buf, at, n, vol, sector * 512) && sector < TWO64 - 1
    ensures OnlyWithin(buf, at, n)
  {
    var sec := new byte[512](_ => 0);
    e := ReadVolume(v, disk, vol, sector, sec, 0, 1);
    if e == None {
      FilledPart(sec, 0, 512, vol, sector * 512, 0, n);
      CopyBytes(sec, 0, buf, at, n, vol, sector * 512);
    }
  }

  /** The bytes of one run: whole sectors, then what is left of the last. A read that succeeds does not
      start at the last 64-bit sector number, where a saturated product would put it. */
  method CopyRun(v: Volume, disk: Bytes, ghost vol: Bytes, first: nat, bytes: nat, buf: array<byte>, off: nat) returns (e: Option<PlatformError>)
    requires Readable(v) && Shows(v, disk, vol) && first < TWO64 && off + bytes <= buf.Length
    modifies buf
    ensures e == None || e == Some(Device) || (e == Some(TooLarge) && bytes > 0 && first + (bytes - 1) / 512 >= VolumeSectors(v))
    ensures e == None ==> Filled(buf, off, bytes, vol, first * 512) && (bytes > 0 ==> first < TWO64 - 1)
    ensures OnlyWithin(buf, off, bytes)
  {
    var n := bytes / 512;
    e := CopyWhole(v, disk, vol, first, n, buf, off);
    if e == None && bytes > n * 512 {
      e := CopyTail(v, disk, vol, first + n, bytes - n * 512, buf, off + n * 512);
    }
  }

  /** The image's bytes are those the runs map, up to n. */
  ghost predicate Copied(runs: seq<Run>, cb: nat, vol: Bytes, buf: array<byte>, n: nat)
    reads buf
    requires n <= buf.Length
  {
    forall j: nat :: j < n ==> ByteAddress(runs, cb, j).Some? && buf[j] == vol(ByteAddress(runs, cb, j).value)
  }

  /** The runs map byte j, to a sector of the volume. */
  ghost predicate InVolume(runs: seq<Run>, cb: nat, v: Volume, j: nat)
    requires v.Bde? ==> v.layout.bps > 0
  {
    ByteAddress(runs, cb, j).Some? && ByteAddress(runs, cb, j).value / 512 < VolumeSectors(v)
  }

  /** u64::saturating_mul. */
  function SaturatingMul(a: u64, b: u64): u64 {
    if a * b < TWO64 then a * b else TWO64 - 1
  }

  /** Runs too short for the size, or a read that failed (of which the source keeps no more). */
  datatype ImageError = FileSize | File(cause: PlatformError)

  /** One turn of the run-copy loop. */
  method CopyNext(cb: u64, runs: seq<Run>, i: nat, v: Volume, disk: Bytes, ghost vol: Bytes, size: u64, buf: array<byte>, off: nat)
    returns (e: Option<PlatformError>, bytes: nat)
    requires cb > 0 && cb % 512 == 0 && buf.Length == size && Readable(v) && Shows(v, disk, vol)
    requires i < |runs| && off < size && Reaches(runs, cb, i, off) && Copied(runs, cb, vol, buf, off)
    modifies buf
    ensures e == None || e == Some(Device) || exists j: nat :: j < size && !InVolume(runs, cb, v, j)
    ensures off + bytes <= size
    ensures e == None ==> Copied(runs, cb, vol, buf, off + bytes)
    ensures off + bytes < size ==> Reaches(runs, cb, i + 1, off + bytes)
  {
    var runBytes := SaturatingMul(runs[i].count, cb);
    bytes := if runBytes < size - off then runBytes else size - off;
    ReachesNext(runs, cb, i, off);
    e := CopyRun(v, disk, vol, SaturatingMul(runs[i].lcn, cb / 512), bytes, buf, off);
    if e == None {
      CopiedMore(runs, cb, i, off, bytes, vol, buf);
    } else if e == Some(TooLarge) {
      OutsideVolume(runs, cb, i, off, bytes, v);
    }
  }

  /** The run-copy loop: buf holds exactly the first `size` bytes the runs map, wherever they lie; unless
      the platform fails, so it does whenever the runs map them all inside the volume. */
  method CopyImage(cb: u64, runs: seq<Run>, v: Volume, disk: Bytes, ghost vol: Bytes, size: u64, buf: array<byte>) returns (e: Option<ImageError>)
    requires cb > 0 && cb % 512 == 0 && buf.Length == size && Readable(v) && Shows(v, disk, vol)
    modifies buf
    ensures e == None ==> Copied(runs, cb, vol, buf, size)
    ensures e == Some(FileSize) ==> exists j: nat :: j < size && ByteAddress(runs, cb, j) == None
    ensures e == None || e == Some(File(Device)) || exists j: nat :: j < size && !InVolume(runs, cb, v, j)
  {
    var off: nat, i: nat := 0, 0;
    assert runs[0..] == runs;
    while i < |runs| && off < size
      invariant i <= |runs| && off <= size && (off < size ==> Reaches(runs, cb, i, off))
      invariant Copied(runs, cb, vol, buf, off)
    {
      var failed, bytes := CopyNext(cb, runs, i, v, disk, vol, size, buf, off);
      if failed.Some? {
        return Some(File(failed.value));
      }
      off, i := off + bytes, i + 1;
    }
    if off != size {
      assert ByteAddress(runs, cb, off) == ByteAddress(runs[i..], cb, off - off);
      assert !InVolume(runs, cb, v, off);
      return Some(FileSize);
    }
    e := None;
  }

  /** A stretch of a run that ends past the volume. */
  lemma {:induction false} OutsideVolume(runs: seq<Run>, cb: nat, i: nat, off: nat, bytes: nat, v: Volume)
    requires cb > 0 && cb % 512 == 0 && cb / 512 < TWO64 && i < |runs| && Reaches(runs, cb, i, off) && Readable(v)
    requires 0 < bytes <= runs[i].count * cb && SaturatingMul(runs[i].lcn, cb / 512) + (bytes - 1) / 512 >= VolumeSectors(v)
    ensures !InVolume(runs, cb, v, off + bytes - 1)
  {
    ReachesNext(runs, cb, i, off);
    SectorsFit(runs[i].lcn, cb);
    var j := off + bytes - 1;
    assert ByteAddress(runs, cb, j) == Some(runs[i].lcn * cb + (bytes - 1));
    assert (runs[i].lcn * (cb / 512) * 512 + (bytes - 1)) / 512 == runs[i].lcn * (cb / 512) + (bytes - 1) / 512;
  }

  /** One run more. */
  lemma {:induction false} CopiedMore(runs: seq<Run>, cb: nat, i: nat, off: nat, bytes: nat, vol: Bytes, buf: array<byte>)
    requires cb > 0 && cb % 512 == 0 && cb / 512 < TWO64 && i < |runs| && off + bytes <= buf.Length && Reaches(runs, cb, i, off)
    requires Copied(runs, cb, vol, buf, off) && bytes <= runs[i].count * cb
    requires var first := SaturatingMul(runs[i].lcn, cb / 512); Filled(buf, off, bytes, vol, first * 512) && (bytes > 0 ==> first < TWO64 - 1)
    ensures Copied(runs, cb, vol, buf, off + bytes) && Reaches(runs, cb, i + 1, off + runs[i].count * cb)
  {
    ReachesNext(runs, cb, i, off);
    SectorsFit(runs[i].lcn, cb);
    forall j: nat | j < off + bytes ensures ByteAddress(runs, cb, j).Some? && buf[j] == vol(ByteAddress(runs, cb, j).value) {
      if off <= j {
        assert buf[j] == vol(SaturatingMul(runs[i].lcn, cb / 512) * 512 + (j - off));
      }
    }
  }
}
