/** kernel/dm-paguro/pg_ntfs.c: from the boot sector and an MFT record to the runs of
    one file, over a device that answers 512-byte sector reads. */
module Ntfs {
  import opened Words
  import opened Extents
  import opened Runlist

  type Sector = s: seq<byte> | |s| == 512 witness seq(512, _ => 0)
  /** pg_read_fn over one device: a sector's bytes, or a failure. */
  type Disk = u64 -> Option<Sector>

  const MAX_RECORD := 4096
  const MAX_ALIST := 65536
  const MAX_EXTENSIONS := 64
  const MAX_CLUSTER := 0x20_0000
  const FIRST_USER_RECORD := 24
  const MAX_RECORD_NUMBER := 0xffff_ffff

  // PG_E_* codes (pg_ntfs.h)
  const E_IO := 1
  const E_BOOT_SIGNATURE := 2
  const E_OEM_ID := 3
  const E_SECTOR_SIZE := 4
  const E_CLUSTER_SIZE := 5
  const E_VOLUME_SIZE := 6
  const E_RECORD_SIZE := 7
  const E_MFT_LCN := 8
  const E_BAD_IDENTITY := 9
  const E_NOT_MAPPED := 10
  const E_RECORD_MAGIC := 11
  const E_RECORD_LAYOUT := 12
  const E_FIXUP_MISMATCH := 13
  const E_RECORD_NUMBER := 14
  const E_NOT_IN_USE := 15
  const E_DIRECTORY := 16
  const E_SEQUENCE := 17
  const E_NOT_BASE := 18
  const E_ATTR_BOUNDS := 19
  const E_NO_DATA := 20
  const E_DUPLICATE_DATA := 21
  const E_RESIDENT := 22
  const E_COMPRESSED := 23
  const E_ENCRYPTED := 24
  const E_SPARSE := 25
  const E_GAP := 26
  const E_SEGMENT_VCN := 27
  const E_OUTSIDE_VOLUME := 28
  const E_ATTR_LIST := 29
  const E_ATTR_LIST_SIZE := 30
  const E_TOO_MANY_EXTENSIONS := 31
  const E_MISSING_SEGMENT := 32
  const E_EXTENSION_BASE := 33
  const E_MFT_ATTR_LIST := 34
  const E_ALLOCATED_SIZE := 35
  const E_NOT_INITIALIZED := 36
  const E_UNALIGNED := 37
  const E_TOO_MANY_EXTENTS := 38
  const E_NO_VOLUME_INFO := 39

  // On-disk constants (pg_layout.h)
  const AT_ATTRIBUTE_LIST := 0x20
  const AT_VOLUME_INFORMATION := 0x70
  const AT_DATA := 0x80
  const AT_END := 0xffff_ffff
  const LIST_ENTRY := 0x1a
  const RESIDENT_HEADER := 0x18
  const NONRESIDENT_HEADER := 0x40

  // ---- geometry ------------------------------------------------------------

  /** What pg_ntfs_boot fills in. */
  datatype Geometry = Geometry(sectors: u64, clusters: u64, clusterBytes: u64, recordBytes: u64, mftLcn: u64)

  /** Clusters an MFT record takes up. */
  function RecordClusters(rb: nat, cb: nat): (n: nat)
    requires rb > 0 && cb > 0
    ensures n >= 1
  {
    DivBelow(rb + cb - 1, cb, 1);
    Quotient(rb + cb - 1, cb)
  }

  /** Sane sizes, and a volume whose byte count fits 64 bits. */
  ghost predicate Sane(g: Geometry) {
    && 512 <= g.clusterBytes <= MAX_CLUSTER && g.clusterBytes % 512 == 0
    && g.clusters > 0 && g.clusters * g.clusterBytes < TWO64
    && g.sectors == g.clusters * (g.clusterBytes / 512)
    && (g.recordBytes == 1024 || g.recordBytes == 2048 || g.recordBytes == 4096)
    && g.mftLcn + RecordClusters(g.recordBytes, g.clusterBytes) <= g.clusters
  }

  predicate IsPow2(x: nat) {
    x == 1 || (x > 1 && x % 2 == 0 && IsPow2(x / 2))
  }

  function Pow2(n: nat): (p: nat)
    ensures p > 0
  {
    if n == 0 then 1 else 2 * Pow2(n - 1)
  }

  lemma {:induction false} Pow2Record(x: nat)
    requires IsPow2(x) && 1024 <= x <= 4096
    ensures x == 1024 || x == 2048 || x == 4096
  {
    assert IsPow2(x / 2) && IsPow2(x / 2 / 2) && IsPow2(x / 2 / 2 / 2);
    var y := x / 2 / 2 / 2;
    assert x == 8 * y;
    assert IsPow2(y / 2) && IsPow2(y / 2 / 2) && IsPow2(y / 2 / 2 / 2);
    var z := y / 2 / 2 / 2;
    assert y == 8 * z;
    assert IsPow2(z / 2) && IsPow2(z / 2 / 2) && IsPow2(z / 2 / 2 / 2);
    var w := z / 2 / 2 / 2;
    assert z == 8 * w && 2 <= w <= 8;
    assert IsPow2(w);
    assert w == 2 || w == 4 || w == 8 by {
      assert IsPow2(w / 2);
    }
  }

  lemma {:induction false} Mul512(bps: nat, spc: nat)
    requires bps == 512 || bps == 4096
    ensures bps * spc % 512 == 0
  {
    var k := if bps == 512 then spc else 8 * spc;
    assert bps * spc == k * 512;
    DivOf(k * 512, k, 512);
  }

  lemma {:induction false} SectorsFit(clusters: nat, cb: nat)
    requires cb % 512 == 0 && cb > 0
    ensures clusters * (cb / 512) * 512 == clusters * cb
  {
    assert cb == cb / 512 * 512;
  }

  lemma {:induction false} TimesBelow(total: nat, bps: nat)
    requires bps > 0 && total <= (TWO64 - 1) / bps
    ensures total * bps < TWO64
  {
    DivParts(TWO64 - 1, bps);
    MulMono(total, (TWO64 - 1) / bps, bps);
  }

  /** A size field of the boot sector: a count of `unit`s, or, from `turn` up, a negated power of two
      of at most `most`. */
  function SizeField(raw: byte, turn: nat, most: nat, unit: nat): nat {
    if raw < turn then raw * unit else if 256 - raw <= most then Pow2(256 - raw) else 0
  }

  /** Bytes in a cluster and in an MFT record, as the boot sector's bytes 0x0b, 0x0d and 0x40 say. */
  function ClusterBytes(b: Sector): nat {
    LE(b, 0x0b, 2) * SizeField(b[0x0d], 0x81, 20, 1)
  }

  function RecordBytes(b: Sector): nat {
    SizeField(b[0x40], 0x80, 12, ClusterBytes(b))
  }

  /** Whole clusters in the volume. */
  function ClusterCount(b: Sector): nat
    requires ClusterBytes(b) > 0
  {
    Quotient(LE(b, 0x28, 8) * LE(b, 0x0b, 2), ClusterBytes(b))
  }

  /** An NTFS boot sector with sane sizes: at least one whole cluster, fewer than 2^64 bytes. */
  predicate VolumeFits(b: Sector) {
    && LE(b, 0x1fe, 2) == 0xaa55 && b[3..11] == [78, 84, 70, 83, 32, 32, 32, 32]
    && (LE(b, 0x0b, 2) == 512 || LE(b, 0x0b, 2) == 4096)
    && IsPow2(SizeField(b[0x0d], 0x81, 20, 1)) && 0 < ClusterBytes(b) <= MAX_CLUSTER
    && ClusterBytes(b) <= LE(b, 0x28, 8) * LE(b, 0x0b, 2) < TWO64
  }

  /** The boot sectors pg_ntfs_boot accepts: also a sane record size, and the first record of $MFT inside. */
  predicate BootAccepts(b: Sector) {
    && VolumeFits(b)
    && 1024 <= RecordBytes(b) <= MAX_RECORD && IsPow2(RecordBytes(b))
    && LE(b, 0x30, 8) + RecordClusters(RecordBytes(b), ClusterBytes(b)) <= ClusterCount(b)
  }

  lemma {:induction false} VolumeBounds(b: Sector)
    requires VolumeFits(b)
    ensures var cb, n := ClusterBytes(b), ClusterCount(b); 512 <= cb && cb % 512 == 0 && n > 0 && n * cb < TWO64 && n < TWO64
  {
    var bps, cb := LE(b, 0x0b, 2), ClusterBytes(b);
    Mul512(bps, SizeField(b[0x0d], 0x81, 20, 1));
    var bytes := LE(b, 0x28, 8) * bps;
    DivParts(bytes, cb);
    DivBelow(bytes, cb, 1);
  }

  /** The geometry an accepted boot sector describes. */
  ghost function GeometryOf(b: Sector): (g: Geometry)
    requires BootAccepts(b)
    ensures Sane(g)
  {
    VolumeBounds(b);
    Pow2Record(RecordBytes(b));
    NewGeometry(ClusterCount(b), ClusterBytes(b), RecordBytes(b), LE(b, 0x30, 8))
  }

  /** Sector count and all, from the fields. */
  function NewGeometry(clusters: nat, cb: nat, rb: nat, lcn: nat): (g: Geometry)
    requires 512 <= cb <= MAX_CLUSTER && cb % 512 == 0 && clusters > 0 && clusters * cb < TWO64 && clusters < TWO64
    requires (rb == 1024 || rb == 2048 || rb == 4096) && lcn + RecordClusters(rb, cb) <= clusters
    ensures Sane(g)
  {
    SaneFrom(clusters, cb, rb, lcn);
    Geometry(clusters * (cb / 512), clusters, cb, rb, lcn)
  }

  lemma {:induction false} SaneFrom(clusters: nat, cb: nat, rb: nat, lcn: nat)
    requires 512 <= cb <= MAX_CLUSTER && cb % 512 == 0 && clusters > 0 && clusters * cb < TWO64 && clusters < TWO64
    requires (rb == 1024 || rb == 2048 || rb == 4096) && lcn + RecordClusters(rb, cb) <= clusters
    ensures clusters * (cb / 512) < TWO64 && lcn < TWO64 && Sane(Geometry(clusters * (cb / 512), clusters, cb, rb, lcn))
  {
    SectorsFit(clusters, cb);
  }

  /** The boot sector's own fields: bytes per sector, cluster size and the whole clusters that fit. */
  method BootVolume(b: Sector) returns (e: int, cb: u64, clusters: u64)
    ensures e == 0 <==> VolumeFits(b)
    ensures e == 0 ==> cb == ClusterBytes(b) && clusters == ClusterCount(b)
  {
    cb, clusters := 0, 0;
    if LE(b, 0x1fe, 2) != 0xaa55 {
      return E_BOOT_SIGNATURE, 0, 0;
    }
    if b[3..11] != [78, 84, 70, 83, 32, 32, 32, 32] {
      return E_OEM_ID, 0, 0;
    }
    var bps := LE(b, 0x0b, 2);
    if bps != 512 && bps != 4096 {
      return E_SECTOR_SIZE, 0, 0;
    }
    var spc := SizeField(b[0x0d], 0x81, 20, 1);
    if !IsPow2(spc) || bps * spc > MAX_CLUSTER {
      return E_CLUSTER_SIZE, 0, 0;
    }
    assert bps * spc >= bps;
    cb := bps * spc;
    e, clusters := CountClusters(LE(b, 0x28, 8), bps, cb);
  }

  /** The clusters that fit a volume of `total` sectors, if their bytes fit 64 bits and there is one. */
  method CountClusters(total: nat, bps: nat, cb: u64) returns (e: int, clusters: u64)
    requires bps > 0 && cb > 0
    ensures e == 0 <==> cb <= total * bps < TWO64
    ensures e == 0 ==> clusters == total * bps / cb
  {
    GuardExact(total, bps);
    if total > (TWO64 - 1) / bps {
      return E_VOLUME_SIZE, 0;
    }
    var bytes: u64 := total * bps;
    DivParts(bytes, cb);
    DivBelow(bytes, cb, 1);
    clusters := bytes / cb;
    e := if clusters == 0 then E_VOLUME_SIZE else 0;
  }

  /** The guard of a 64-bit product is exact. */
  lemma {:induction false} GuardExact(a: nat, m: nat)
    requires m > 0
    ensures a <= (TWO64 - 1) / m <==> a * m < TWO64
  {
    if a <= (TWO64 - 1) / m {
      TimesBelow(a, m);
    } else {
      DivParts(TWO64 - 1, m);
      MulMono((TWO64 - 1) / m + 1, a, m);
      TimesPlus((TWO64 - 1) / m, 1, m);
    }
  }

  /** pg_ntfs_boot: the geometry a boot sector describes; exactly when it is acceptable. */
  method Boot(b: Sector) returns (e: int, g: Geometry)
    ensures e == 0 <==> BootAccepts(b)
    ensures e == 0 ==> Sane(g) && g == GeometryOf(b)
  {
    g := Geometry(0, 0, 0, 0, 0);
    var cb, clusters;
    e, cb, clusters := BootVolume(b);
    if e != 0 {
      return;
    }
    var rb := SizeField(b[0x40], 0x80, 12, cb);
    if rb < 1024 || rb > MAX_RECORD || !IsPow2(rb) {
      return E_RECORD_SIZE, g;
    }
    var lcn := LE(b, 0x30, 8);
    if lcn >= clusters || clusters - lcn < RecordClusters(rb, cb) {
      return E_MFT_LCN, g;
    }
    VolumeBounds(b);
    Pow2Record(rb);
    g := NewGeometry(clusters, cb, rb, lcn);
  }

  // ---- runs and the sectors they map ---------------------------------------

  predicate InVolume(runs: seq<Run>, clusters: int) {
    forall i :: 0 <= i < |runs| ==> RunInside(runs[i], clusters)
  }

  predicate RunInside(r: Run, clusters: int) {
    0 < r.count && r.lcn + r.count <= clusters
  }

  /** A run as a range of clusters. */
  function ClusterRange(r: Run): Extent {
    if r.lcn + r.count < TWO64 then Extent(r.lcn, r.lcn + r.count) else Extent(r.lcn, r.lcn)
  }

  function Ranges(runs: seq<Run>): (es: seq<Extent>)
    ensures |es| == |runs|
    ensures forall i :: 0 <= i < |runs| ==> es[i] == ClusterRange(runs[i])
  {
    seq(|runs|, i requires 0 <= i < |runs| => ClusterRange(runs[i]))
  }

  /** The logical cluster at each virtual cluster number. */
  function Clusters(runs: seq<Run>): seq<int> {
    Sectors(Ranges(runs))
  }

  /** The virtual cluster of a byte offset, and the offset inside it. */
  function Vcn(off: nat, cb: nat): (v: nat)
    requires cb > 0
    ensures v <= off
  {
    DivParts(off, cb);
    off / cb
  }

  function Within(off: nat, cb: nat): (w: nat)
    requires cb > 0
    ensures w < cb
  {
    off % cb
  }

  /** The sector of a byte inside a cluster. */
  function Address(lcn: nat, cb: nat, within: nat): nat {
    (lcn * cb + within) / 512
  }

  /** The sector that holds byte `off` of an attribute mapped by the runs. */
  ghost function SectorAt(cb: nat, runs: seq<Run>, off: nat): int
    requires cb > 0 && Vcn(off, cb) < |Clusters(runs)| && Clusters(runs)[Vcn(off, cb)] >= 0
  {
    Address(Clusters(runs)[Vcn(off, cb)], cb, Within(off, cb))
  }

  lemma {:induction false} ClustersTakeNext(runs: seq<Run>, i: nat, v: nat)
    requires i < |runs| && runs[i].lcn + runs[i].count < TWO64
    ensures |Clusters(runs[..i + 1])| == |Clusters(runs[..i])| + runs[i].count <= |Clusters(runs)|
    ensures v < runs[i].count ==> Clusters(runs)[|Clusters(runs[..i])| + v] == runs[i].lcn + v
  {
    var es := Ranges(runs);
    assert Ranges(runs[..i]) == es[..i] && Ranges(runs[..i + 1]) == es[..i + 1];
    SectorsTakeNext(es, i);
    if v < runs[i].count {
      var k := |Sectors(es[..i])| + v;
      assert Sectors(es)[k] == Sectors(es[..i + 1])[k];
    }
  }

  /** No 64-bit product or sum of the byte address of a cluster inside the volume wraps. */
  lemma {:induction false} AddressFits(clusters: nat, cb: nat, lcn: nat, within: nat)
    requires clusters * cb < TWO64 && lcn < clusters && within < cb
    ensures lcn * cb + within < TWO64 && Address(lcn, cb, within) < TWO64
  {
    MulMono(lcn + 1, clusters, cb);
  }

  /** The search of sector_of: the run holding a virtual cluster. */
  method ClusterOf(g: Geometry, runs: seq<Run>, vcn: u64) returns (found: bool, lcn: u64)
    requires Sane(g) && InVolume(runs, g.clusters)
    ensures found <==> vcn < |Clusters(runs)|
    ensures found ==> 0 <= lcn == Clusters(runs)[vcn] < g.clusters
  {
    var left: nat := vcn;
    var i := 0;
    assert Ranges(runs[..0]) == [];
    while i < |runs|
      invariant 0 <= i <= |runs|
      invariant left == vcn - |Clusters(runs[..i])|
    {
      assert RunInside(runs[i], g.clusters);
      ClustersBelow(g, runs[i]);
      ClustersTakeNext(runs, i, left);
      if left < runs[i].count {
        return true, runs[i].lcn + left;
      }
      left := left - runs[i].count;
      i := i + 1;
    }
    assert runs[..|runs|] == runs;
    found, lcn := false, 0;
  }

  /** sector_of: the sector holding byte `off`, or none past the last run. */
  method SectorOf(g: Geometry, runs: seq<Run>, off: u64) returns (found: bool, sector: u64)
    requires Sane(g) && InVolume(runs, g.clusters)
    ensures found <==> Vcn(off, g.clusterBytes) < |Clusters(runs)|
    ensures found ==> Clusters(runs)[Vcn(off, g.clusterBytes)] >= 0 && sector == SectorAt(g.clusterBytes, runs, off)
  {
    var lcn;
    found, lcn := ClusterOf(g, runs, Vcn(off, g.clusterBytes));
    sector := 0;
    if found {
      AddressFits(g.clusters, g.clusterBytes, lcn, Within(off, g.clusterBytes));
      sector := Address(lcn, g.clusterBytes, Within(off, g.clusterBytes));
    }
  }

  lemma {:induction false} ClustersBelow(g: Geometry, r: Run)
    requires Sane(g) && RunInside(r, g.clusters)
    ensures r.lcn + r.count < TWO64
  {
    MulAtLeast(g.clusters, g.clusterBytes);
  }
}
