/** kernel/dm-paguro/pg_ntfs.c: one MFT record -- reading it through a run map, undoing the
    update-sequence protection, and the bounds every attribute header must keep. */
module NtfsRecord {
  import opened Words
  import opened Runlist
  import opened Ntfs

  // ---- sectors through a map -----------------------------------------------

  /** The device's sector for byte `off` of a mapped attribute, if it is mapped and can be read. */
  ghost function SectorRead(disk: Disk, g: Geometry, runs: seq<Run>, off: nat): Option<Sector>
    requires g.clusterBytes > 0
  {
    if Vcn(off, g.clusterBytes) < |Clusters(runs)| && Clusters(runs)[Vcn(off, g.clusterBytes)] >= 0
       && SectorAt(g.clusterBytes, runs, off) < TWO64
    then disk(SectorAt(g.clusterBytes, runs, off))
    else None
  }

  /** n sectors from byte `start` of the map on, if all can be read. */
  ghost function RawAt(disk: Disk, g: Geometry, runs: seq<Run>, start: nat, n: nat): (r: Option<seq<byte>>)
    requires g.clusterBytes > 0
    ensures r.Some? ==> |r.value| == n * 512
  {
    if n == 0 then Some([])
    else
      match RawAt(disk, g, runs, start, n - 1)
      case None => None
      case Some(got) =>
        match SectorRead(disk, g, runs, start + (n - 1) * 512)
        case None => None
        case Some(bytes) => Some(got + bytes)
  }

  lemma {:induction false} RawNone(disk: Disk, g: Geometry, runs: seq<Run>, start: nat, i: nat, n: nat)
    requires g.clusterBytes > 0 && i <= n && RawAt(disk, g, runs, start, i) == None
    ensures RawAt(disk, g, runs, start, n) == None
  {
    if i < n {
      RawNone(disk, g, runs, start, i, n - 1);
    }
  }

  /** sector_of and the device read, as one sector. */
  method ReadOne(disk: Disk, g: Geometry, runs: seq<Run>, off: u64) returns (e: int, bytes: seq<byte>)
    requires Sane(g) && InVolume(runs, g.clusters)
    ensures e == 0 || e == E_NOT_MAPPED || e == E_IO
    ensures SectorRead(disk, g, runs, off) == if e == 0 then Some(bytes) else None
  {
    bytes := [];
    var found, s := SectorOf(g, runs, off);
    if !found {
      return E_NOT_MAPPED, [];
    }
    match disk(s) {
      case None => return E_IO, [];
      case Some(b) => return 0, b;
    }
  }

  /** Sector i of what the map holds from byte `start` on, into its place in buf. */
  method ReadSector(disk: Disk, g: Geometry, runs: seq<Run>, start: nat, i: nat, buf: array<byte>, ghost got: seq<byte>)
    returns (e: int, ghost got': seq<byte>)
    requires Sane(g) && InVolume(runs, g.clusters) && i * 512 + 512 <= buf.Length && start + i * 512 < TWO64
    requires RawAt(disk, g, runs, start, i) == Some(got) && forall j :: 0 <= j < i * 512 ==> buf[j] == got[j]
    modifies buf
    ensures e == 0 || e == E_NOT_MAPPED || e == E_IO
    ensures RawAt(disk, g, runs, start, i + 1) == if e == 0 then Some(got') else None
    ensures e == 0 ==> |got'| == i * 512 + 512 && forall j :: 0 <= j < i * 512 + 512 ==> buf[j] == got'[j]
  {
    got' := got;
    var bytes;
    e, bytes := ReadOne(disk, g, runs, start + i * 512);
    if e == 0 {
      forall j | i * 512 <= j < i * 512 + 512 {
        buf[j] := bytes[j - i * 512];
      }
      got' := got + bytes;
    }
  }

  /** n sectors into buf, or why not. */
  method ReadRaw(disk: Disk, g: Geometry, runs: seq<Run>, start: u64, n: nat, buf: array<byte>) returns (e: int)
    requires Sane(g) && InVolume(runs, g.clusters) && n * 512 <= buf.Length && start + n * 512 <= TWO64
    modifies buf
    ensures e == 0 || e == E_NOT_MAPPED || e == E_IO
    ensures RawAt(disk, g, runs, start, n) == if e == 0 then Some(buf[..n * 512]) else None
  {
    var i: nat := 0;
    ghost var got: seq<byte> := [];
    while i < n
      invariant i <= n && RawAt(disk, g, runs, start, i) == Some(got)
      invariant |got| == i * 512 && forall j :: 0 <= j < i * 512 ==> buf[j] == got[j]
    {
      e, got := ReadSector(disk, g, runs, start, i, buf, got);
      if e != 0 {
        RawNone(disk, g, runs, start, i + 1, n);
        return;
      }
      i := i + 1;
    }
    assert buf[..n * 512] == got;
    e := 0;
  }

  // ---- the update sequence -------------------------------------------------

  /** raw with the last two bytes of its first n sectors restored from the update-sequence array at `usa`. */
  function Restore(raw: seq<byte>, usa: nat, n: nat): (r: seq<byte>)
    requires usa + 2 * n + 2 <= |raw| && n * 512 <= |raw|
    ensures |r| == |raw|
  {
    if n == 0 then raw
    else Restore(raw, usa, n - 1)[n * 512 - 2 := raw[usa + 2 * n]][n * 512 - 1 := raw[usa + 2 * n + 1]]
  }

  /** The first sector's body and every sector from n on are as read. */
  lemma {:induction false} RestoreKeeps(raw: seq<byte>, usa: nat, n: nat, j: nat)
    requires usa + 2 * n + 2 <= |raw| && n * 512 <= |raw| && j < |raw| && (j < 510 || n * 512 <= j)
    ensures Restore(raw, usa, n)[j] == raw[j]
  {
    if n > 0 {
      RestoreKeeps(raw, usa, n - 1, j);
    }
  }

  /** Sector i of raw ends in the update sequence number. */
  predicate Protected(raw: seq<byte>, usa: nat, i: nat)
    requires i * 512 + 512 <= |raw| && usa + 2 <= |raw|
  {
    raw[i * 512 + 510] == raw[usa] && raw[i * 512 + 511] == raw[usa + 1]
  }

  ghost predicate AllProtected(raw: seq<byte>, usa: nat, n: nat)
    requires usa + 2 <= |raw| && n * 512 <= |raw|
  {
    forall i :: 0 <= i < n ==> Protected(raw, usa, i)
  }

  /** The end of one sector, restored in place. */
  method RestoreEnd(rec: array<byte>, rb: nat, usa: nat, i: nat, ghost now: seq<byte>)
    requires 1 <= i && i * 512 <= rb <= rec.Length && usa + 2 * i + 1 < 510
    requires |now| == rb && forall j :: 0 <= j < rb ==> rec[j] == now[j]
    modifies rec
    ensures var end := now[i * 512 - 2 := now[usa + 2 * i]][i * 512 - 1 := now[usa + 2 * i + 1]];
            forall j :: 0 <= j < rb ==> rec[j] == end[j]
  {
    rec[i * 512 - 2] := rec[usa + 2 * i];
    rec[i * 512 - 1] := rec[usa + 2 * i + 1];
  }

  lemma {:induction false} RestoreNext(raw: seq<byte>, usa: nat, i: nat, now: seq<byte>)
    requires 1 <= i && i * 512 <= |raw| && usa + 2 * i + 1 < 510 && now == Restore(raw, usa, i - 1)
    ensures now[usa + 2 * i] == raw[usa + 2 * i] && now[usa + 2 * i + 1] == raw[usa + 2 * i + 1]
    ensures now[i * 512 - 2] == raw[i * 512 - 2] && now[i * 512 - 1] == raw[i * 512 - 1]
    ensures Restore(raw, usa, i) == now[i * 512 - 2 := now[usa + 2 * i]][i * 512 - 1 := now[usa + 2 * i + 1]]
  {
    RestoreKeeps(raw, usa, i - 1, i * 512 - 2);
    RestoreKeeps(raw, usa, i - 1, i * 512 - 1);
    RestoreKeeps(raw, usa, i - 1, usa + 2 * i);
    RestoreKeeps(raw, usa, i - 1, usa + 2 * i + 1);
  }

  /** One turn of the update-sequence loop. */
  method FixSector(rec: array<byte>, rb: nat, usa: nat, i: nat, lo: byte, hi: byte, ghost raw: seq<byte>, ghost now: seq<byte>) returns (ok: bool)
    requires 1 <= i && i * 512 <= rb <= rec.Length && usa + 2 * i + 1 < 510 && |raw| == rb
    requires lo == raw[usa] && hi == raw[usa + 1]
    requires now == Restore(raw, usa, i - 1) && forall j :: 0 <= j < rb ==> rec[j] == now[j]
    modifies rec
    ensures ok <==> Protected(raw, usa, i - 1)
    ensures ok ==> var next := Restore(raw, usa, i); forall j :: 0 <= j < rb ==> rec[j] == next[j]
  {
    RestoreNext(raw, usa, i, now);
    if rec[i * 512 - 2] != lo || rec[i * 512 - 1] != hi {
      return false;
    }
    RestoreEnd(rec, rb, usa, i, now);
    ok := true;
  }

  /** The update-sequence loop: check each sector's end and restore it, in place. */
  method Fixup(rec: array<byte>, sectors: nat, usa: nat) returns (e: int)
    requires rec.Length == MAX_RECORD && 2 <= sectors <= 8 && usa <= 0x30
    modifies rec
    ensures e == (if AllProtected(old(rec[..sectors * 512]), usa, sectors) then 0 else E_FIXUP_MISMATCH)
    ensures e == 0 ==> rec[..sectors * 512] == Restore(old(rec[..sectors * 512]), usa, sectors)
  {
    ghost var raw := rec[..sectors * 512];
    ghost var now := raw;
    var lo, hi := rec[usa], rec[usa + 1];
    var i: nat := 1;
    while i < sectors + 1
      invariant 1 <= i <= sectors + 1
      invariant AllProtected(raw, usa, i - 1)
      invariant now == Restore(raw, usa, i - 1)
      invariant forall j :: 0 <= j < sectors * 512 ==> rec[j] == now[j]
    {
      var ok := FixSector(rec, sectors * 512, usa, i, lo, hi, raw, now);
      if !ok {
        return E_FIXUP_MISMATCH;
      }
      now := Restore(raw, usa, i);
      i := i + 1;
    }
    e := 0;
  }

  // ---- read_record ---------------------------------------------------------

  const RECORD_HEADER := 0x30

  function UsaOffset(r: seq<byte>): nat requires |r| >= RECORD_HEADER { LE(r, 0x04, 2) }
  function UsaCount(r: seq<byte>): nat requires |r| >= RECORD_HEADER { LE(r, 0x06, 2) }
  function Sequence(r: seq<byte>): nat requires |r| >= RECORD_HEADER { LE(r, 0x10, 2) }
  function AttrsOffset(r: seq<byte>): nat requires |r| >= RECORD_HEADER { LE(r, 0x14, 2) }
  function RecordFlags(r: seq<byte>): nat requires |r| >= RECORD_HEADER { LE(r, 0x16, 2) }
  function BytesInUse(r: seq<byte>): nat requires |r| >= RECORD_HEADER { LE(r, 0x18, 4) }
  function BytesAllocated(r: seq<byte>): nat requires |r| >= RECORD_HEADER { LE(r, 0x1c, 4) }
  function BaseReference(r: seq<byte>): nat requires |r| >= RECORD_HEADER { LE(r, 0x20, 8) }
  function RecordNumber(r: seq<byte>): nat requires |r| >= RECORD_HEADER { LE(r, 0x2c, 4) }

  predicate InUse(r: seq<byte>) requires |r| >= RECORD_HEADER { RecordFlags(r) % 2 == 1 }
  predicate IsDirectory(r: seq<byte>) requires |r| >= RECORD_HEADER { RecordFlags(r) / 2 % 2 == 1 }

  predicate RecordSize(n: int) {
    n == 1024 || n == 2048 || n == 4096
  }

  /** A checked record: its used part and attributes lie inside it, 8-byte aligned. */
  predicate Checked(r: seq<byte>) {
    && RecordSize(|r|) && BytesAllocated(r) == |r|
    && BytesInUse(r) <= |r| && BytesInUse(r) % 8 == 0
    && AttrsOffset(r) % 8 == 0 && 0 < AttrsOffset(r) < BytesInUse(r)
  }

  /** The header of an unprotected record whose update-sequence array of `count` words is at usa. */
  predicate HeaderFits(r: seq<byte>, usa: nat, count: nat, recno: nat)
    requires |r| >= RECORD_HEADER
  {
    Checked(r) && usa + 2 * count <= AttrsOffset(r) && (usa == 0x30 ==> RecordNumber(r) == recno)
  }

  /** The bytes of a record as read start with FILE and say where their update-sequence array is. */
  predicate Framed(raw: seq<byte>)
    requires RecordSize(|raw|)
  {
    && raw[..4] == [70, 73, 76, 69]
    && (UsaOffset(raw) == 0x30 || UsaOffset(raw) == 0x2a) && UsaCount(raw) == |raw| / 512 + 1
  }

  /** Record recno unprotected, if its bytes as read are those of a well-formed one. */
  ghost function RecordFrom(raw: seq<byte>, recno: nat): (r: Option<seq<byte>>)
    requires RecordSize(|raw|)
    ensures r.Some? ==> |r.value| == |raw| && Checked(r.value)
  {
    var usa, n := UsaOffset(raw), |raw| / 512;
    if Framed(raw) && AllProtected(raw, usa, n) && HeaderFits(Restore(raw, usa, n), usa, n + 1, recno)
    then Some(Restore(raw, usa, n))
    else None
  }

  /** The rb bytes from byte `start` of the map on, as record recno. */
  ghost function RecordStored(disk: Disk, g: Geometry, runs: seq<Run>, rb: nat, start: nat, recno: nat): (r: Option<seq<byte>>)
    requires g.clusterBytes > 0 && RecordSize(rb)
    ensures r.Some? ==> |r.value| == rb && Checked(r.value)
  {
    match RawAt(disk, g, runs, start, rb / 512)
    case None => None
    case Some(raw) => RecordFrom(raw, recno)
  }

  /** Record recno of the $MFT mapped by the runs, whose first `limit` bytes count. */
  ghost function RecordAt(disk: Disk, g: Geometry, runs: seq<Run>, limit: nat, recno: nat): (r: Option<seq<byte>>)
    requires g.clusterBytes > 0 && RecordSize(g.recordBytes)
    ensures r.Some? ==> |r.value| == g.recordBytes && Checked(r.value)
  {
    if recno * g.recordBytes + g.recordBytes > limit then None
    else RecordStored(disk, g, runs, g.recordBytes, recno * g.recordBytes, recno)
  }

  /** Where record recno starts, if it lies below the limit. */
  method RecordStart(recno: u64, rb: nat, limit: u64) returns (start: Option<u64>)
    requires rb > 0
    ensures start.Some? <==> recno * rb + rb <= limit
    ensures start.Some? ==> start.value == recno * rb
  {
    if recno > (TWO64 - 1) / rb {
      DivParts(TWO64 - 1, rb);
      MulMono((TWO64 - 1) / rb + 1, recno, rb);
      return None;
    }
    TimesBelow(recno, rb);
    start := if recno * rb > limit || limit - recno * rb < rb then None else Some(recno * rb);
  }

  /** The checks of read_record on the bytes read, which it unprotects in place. */
  method CheckRecord(rec: array<byte>, rb: nat, recno: u64) returns (e: int)
    requires rec.Length == MAX_RECORD && RecordSize(rb)
    modifies rec
    ensures RecordFrom(old(rec[..rb]), recno) == if e == 0 then Some(rec[..rb]) else None
  {
    var raw := rec[..rb];
    e := CheckFrame(raw);
    if e != 0 {
      return;
    }
    var usa := UsaOffset(raw);
    e := Fixup(rec, rb / 512, usa);
    if e != 0 {
      return;
    }
    e := CheckHeader(rec[..rb], usa, rb / 512 + 1, recno);
  }

  method CheckFrame(raw: seq<byte>) returns (e: int)
    requires RecordSize(|raw|)
    ensures e == 0 <==> Framed(raw)
  {
    if raw[..4] != [70, 73, 76, 69] {
      return E_RECORD_MAGIC;
    }
    var count, usa := UsaCount(raw), UsaOffset(raw);
    e := if (usa != 0x30 && usa != 0x2a) || count != |raw| / 512 + 1 then E_RECORD_LAYOUT else 0;
  }

  method CheckHeader(r: seq<byte>, usa: nat, count: nat, recno: u64) returns (e: int)
    requires RecordSize(|r|) && usa > 0
    ensures e == 0 <==> HeaderFits(r, usa, count, recno)
  {
    var rb, attrs, used := |r|, AttrsOffset(r), BytesInUse(r);
    if BytesAllocated(r) != rb || used > rb || used % 8 != 0 || attrs % 8 != 0 || attrs < usa + 2 * count || attrs >= used {
      return E_RECORD_LAYOUT;
    }
    e := if usa == 0x30 && RecordNumber(r) != recno then E_RECORD_NUMBER else 0;
  }

  method ReadStored(disk: Disk, g: Geometry, runs: seq<Run>, rb: nat, start: u64, recno: u64, rec: array<byte>) returns (e: int)
    requires Sane(g) && InVolume(runs, g.clusters) && rec.Length == MAX_RECORD && RecordSize(rb) && start + rb <= TWO64
    modifies rec
    ensures RecordStored(disk, g, runs, rb, start, recno) == if e == 0 then Some(rec[..rb]) else None
  {
    e := ReadRaw(disk, g, runs, start, rb / 512, rec);
    if e == 0 {
      e := CheckRecord(rec, rb, recno);
    }
  }

  /** read_record: record recno of the map, unprotected and checked, in rec; exactly when there is one. */
  method ReadRecord(disk: Disk, g: Geometry, runs: seq<Run>, limit: u64, recno: u64, rec: array<byte>) returns (e: int)
    requires Sane(g) && InVolume(runs, g.clusters) && rec.Length == MAX_RECORD
    modifies rec
    ensures RecordAt(disk, g, runs, limit, recno) == if e == 0 then Some(rec[..g.recordBytes]) else None
  {
    var rb := g.recordBytes;
    var start := RecordStart(recno, rb, limit);
    if start.None? {
      return E_NOT_MAPPED;
    }
    e := ReadStored(disk, g, runs, rb, start.value, recno, rec);
  }

  /** recs is the $MFT behind the map: record numbers to records. */
  ghost predicate Serves(disk: Disk, g: Geometry, runs: seq<Run>, limit: nat, recs: nat -> Option<seq<byte>>)
    requires g.clusterBytes > 0 && RecordSize(g.recordBytes)
  {
    forall n: nat {:trigger RecordAt(disk, g, runs, limit, n)} :: recs(n) == RecordAt(disk, g, runs, limit, n)
  }

  ghost function Records(disk: Disk, g: Geometry, runs: seq<Run>, limit: nat): nat -> Option<seq<byte>>
    requires g.clusterBytes > 0 && RecordSize(g.recordBytes)
  {
    (n: nat) => RecordAt(disk, g, runs, limit, n)
  }

  /** ReadRecord, told by the $MFT behind the map. */
  method FetchRecord(disk: Disk, g: Geometry, runs: seq<Run>, limit: u64, recno: u64, rec: array<byte>, ghost recs: nat -> Option<seq<byte>>)
    returns (e: int, r: seq<byte>)
    requires Sane(g) && InVolume(runs, g.clusters) && rec.Length == MAX_RECORD && Serves(disk, g, runs, limit, recs)
    modifies rec
    ensures recs(recno) == if e == 0 then Some(r) else None
    ensures e == 0 ==> Checked(r) && r == rec[..|r|]
  {
    e := ReadRecord(disk, g, runs, limit, recno, rec);
    r := rec[..g.recordBytes];
  }

  // ---- attr_at -------------------------------------------------------------

  lemma {:induction false} LEWord(r: seq<byte>, at: nat)
    requires at + 8 <= |r|
    ensures LE(r, at, 8) < TWO64
  {
    LEBound(r, at, 8);
    Pow256Values();
  }

  /** A 64-bit field. */
  function U64(r: seq<byte>, at: nat): u64
    requires at + 8 <= |r|
  {
    LEWord(r, at);
    LE(r, at, 8)
  }

  /** The fields of struct ntfs_attr, and of its resident and non-resident forms. */
  datatype Header = Header(kind: nat, size: nat, nonresident: nat, nameLength: nat, nameOffset: nat, flags: nat, instance: nat,
                           valueLength: nat, valueOffset: nat, mapping: Mapping)

  datatype Mapping = NoMapping | Mapping(lowest: u64, highest: u64, pairs: nat, unit: nat, alloc: u64, data: u64, init: u64)

  function HeaderAt(r: seq<byte>, pos: nat): Header
    requires pos + RESIDENT_HEADER <= |r|
  {
    Header(LE(r, pos, 4), LE(r, pos + 4, 4), r[pos + 8], r[pos + 9], LE(r, pos + 0x0a, 2), LE(r, pos + 0x0c, 2), LE(r, pos + 0x0e, 2),
           LE(r, pos + 0x10, 4), LE(r, pos + 0x14, 2), MappingAt(r, pos))
  }

  function MappingAt(r: seq<byte>, pos: nat): Mapping {
    if pos + NONRESIDENT_HEADER > |r| then NoMapping
    else Mapping(U64(r, pos + 0x10), U64(r, pos + 0x18), LE(r, pos + 0x20, 2), r[pos + 0x22],
                 U64(r, pos + 0x28), U64(r, pos + 0x30), U64(r, pos + 0x38))
  }

  /** The header keeps its name, its resident value and its non-resident fields inside the attribute,
      and the attribute inside the `room` left in the record. */
  predicate Bounded(h: Header, room: int) {
    && RESIDENT_HEADER <= h.size <= room && h.size % 8 == 0
    && h.nonresident <= 1
    && (h.nameLength > 0 ==> h.nameOffset + 2 * h.nameLength <= h.size)
    && (h.nonresident == 1 ==> h.size >= NONRESIDENT_HEADER)
    && (h.nonresident == 0 ==> h.valueOffset + h.valueLength <= h.size)
  }

  /** The attribute at a position: refused, the end marker, or a bounded header. */
  datatype Attribute = Broken | EndMarker | Attribute(h: Header)

  /** attr_at, as what it decides. */
  function AttrAt(r: seq<byte>, used: nat, pos: nat): Attribute
    requires used <= |r|
  {
    if pos + 4 > used then Broken
    else if LE(r, pos, 4) == AT_END then EndMarker
    else if pos + RESIDENT_HEADER > used || !Bounded(HeaderAt(r, pos), used - pos) then Broken
    else Attribute(HeaderAt(r, pos))
  }

  /** attr_at: the checks one by one, each before the fields it makes safe to read. */
  method ReadAttr(r: seq<byte>, used: nat, pos: nat) returns (a: Attribute)
    requires used <= |r|
    ensures a == AttrAt(r, used, pos)
    ensures a.Attribute? ==> Bounded(a.h, used - pos) && a.h.kind != AT_END && a.h == HeaderAt(r, pos)
  {
    if pos + 4 > used {
      return Broken;
    }
    if LE(r, pos, 4) == AT_END {
      return EndMarker;
    }
    if pos + RESIDENT_HEADER > used {
      return Broken;
    }
    var h := HeaderAt(r, pos);
    if h.size < RESIDENT_HEADER || h.size % 8 != 0 || h.size > used - pos {
      return Broken;
    }
    if h.nonresident > 1 || (h.nameLength > 0 && h.nameOffset + 2 * h.nameLength > h.size) {
      return Broken;
    }
    if h.nonresident == 1 && h.size < NONRESIDENT_HEADER {
      return Broken;
    }
    if h.nonresident == 0 && h.valueOffset + h.valueLength > h.size {
      return Broken;
    }
    a := Attribute(h);
  }
}
