/** Whole-block reads of a disk, and PartIo of crates/paguro-boot/src/bde.rs: a partition read in units
    of the volume's own sector size. */
module Blocks {
  import opened Words
  import opened Buffers

  /** A partition: its first block, its length in blocks (whose last LBA is a 64-bit number) and the block size. */
  datatype Partition = Partition(first: u64, blocks: u64, blockSize: nat)

  ghost predicate Sound(p: Partition) {
    (p.blockSize == 512 || p.blockSize == 4096) && p.first + p.blocks <= TWO64
  }

  /** The partition's bytes on its disk. */
  function PartitionBytes(p: Partition, disk: Bytes): Bytes {
    (a: int) => disk(p.first * p.blockSize + a)
  }

  /** Platform::read_blocks: whole blocks from `lba` on, or a failure at its pleasure. */
  method ReadBlocks(disk: Bytes, blockSize: nat, lba: u64, buf: array<byte>, at: nat, n: nat) returns (ok: bool)
    requires blockSize > 0 && n % blockSize == 0 && at + n <= buf.Length
    modifies buf
    ensures ok ==> Filled(buf, at, n, disk, lba * blockSize)
    ensures OnlyWithin(buf, at, n)
  {
    if * {
      return false;
    }
    for j := 0 to n
      invariant forall q :: at <= q < at + j ==> buf[q] == disk(lba * blockSize + (q - at))
      invariant OnlyWithin(buf, at, n)
    {
      buf[at + j] := disk(lba * blockSize + j);
    }
    ok := true;
  }

  /** Bytes of the disk that are bytes of the partition. */
  lemma {:induction false} OnPartition(p: Partition, disk: Bytes, buf: array<byte>, at: nat, n: nat, from: int, a: int)
    requires at + n <= buf.Length && Filled(buf, at, n, disk, from) && from == p.first * p.blockSize + a
    ensures Filled(buf, at, n, PartitionBytes(p, disk), a)
  {
    forall q | at <= q < at + n ensures buf[q] == PartitionBytes(p, disk)(a + (q - at)) {
      assert buf[q] == disk(from + (q - at));
    }
  }

  // ---- PartIo::read_units --------------------------------------------------

  datatype ReadError = Io | Range | Alignment

  /** The block that PartIo computes for a unit. */
  function UnitBlock(p: Partition, unitSize: nat, unit: nat): nat
    requires p.blockSize > 0
  {
    unit * Quotient(unitSize, p.blockSize) + p.first
  }

  /** It is where the unit starts exactly when blocks divide units; otherwise every unit but the first is
      looked for in the wrong place. */
  lemma {:induction false} UnitBlockExact(p: Partition, unitSize: nat, unit: nat)
    requires p.blockSize > 0 && unit > 0
    ensures UnitBlock(p, unitSize, unit) * p.blockSize == p.first * p.blockSize + unit * unitSize <==> unitSize % p.blockSize == 0
  {
    var bs, per, rest := p.blockSize, unitSize / p.blockSize, unitSize % p.blockSize;
    UnitBlockBytes(p.first, unit, per, bs);
    DivParts(unitSize, bs);
    assert unit * unitSize == unit * (per * bs) + unit * rest;
    if rest > 0 {
      MulAtLeast(rest, unit);
    }
  }

  lemma {:induction false} UnitBlockBytes(first: nat, unit: nat, per: nat, bs: nat)
    ensures (unit * per + first) * bs == first * bs + unit * (per * bs)
  {
    TimesPlus(unit * per, first, bs);
    assert unit * per * bs == unit * (per * bs);
  }

  lemma {:induction false} UnitStart(p: Partition, unitSize: nat, unit: nat)
    requires p.blockSize > 0 && unitSize % p.blockSize == 0
    ensures UnitBlock(p, unitSize, unit) * p.blockSize == p.first * p.blockSize + unit * unitSize
  {
    if unit > 0 {
      UnitBlockExact(p, unitSize, unit);
    }
  }

  /** PartIo::read_units: n bytes of whole units from `unit` on. Range exactly when the block number does
      not fit 64 bits; on success, where blocks divide units, the partition's own bytes. */
  method ReadPartUnits(p: Partition, unitSize: nat, disk: Bytes, unit: u64, buf: array<byte>, at: nat, n: nat) returns (e: Option<ReadError>)
    requires Sound(p) && n % p.blockSize == 0 && at + n <= buf.Length
    modifies buf
    ensures e == Some(Range) <==> UnitBlock(p, unitSize, unit) >= TWO64
    ensures e == None || e == Some(Range) || e == Some(Io)
    ensures e == None ==> Filled(buf, at, n, disk, UnitBlock(p, unitSize, unit) * p.blockSize)
    ensures e == None && unitSize % p.blockSize == 0 ==> Filled(buf, at, n, PartitionBytes(p, disk), unit * unitSize)
    ensures OnlyWithin(buf, at, n)
  {
    var per := Quotient(unitSize, p.blockSize);
    if unit * per >= TWO64 || unit * per + p.first >= TWO64 {
      return Some(Range);
    }
    var lba := unit * per + p.first;
    var ok := ReadBlocks(disk, p.blockSize, lba, buf, at, n);
    if ok && unitSize % p.blockSize == 0 {
      UnitStart(p, unitSize, unit);
      OnPartition(p, disk, buf, at, n, lba * p.blockSize, unit * unitSize);
    }
    e := if ok then None else Some(Io);
  }
}
