/** What a derivation says of the device's own bytes: the file record where the device stores it, the
    headers of the file's segments, $Volume's flags. Every field is named by its offset. */
module NtfsBytes {
  import opened Words
  import opened Runlist
  import opened Ntfs
  import opened NtfsRecord
  import opened Derivation
  import opened NtfsWalk
  import NtfsFile
  import Views

  // ---- fields --------------------------------------------------------------

  /** Two bytes, the low one first. */
  function Word(b: seq<byte>, at: nat): nat
    requires at + 2 <= |b|
  {
    var lo: nat, hi: nat := b[at], b[at + 1];
    lo + 256 * hi
  }

  lemma {:induction false} TwoBytes(b: seq<byte>, at: nat)
    requires at + 2 <= |b|
    ensures LE(b, at, 2) == Word(b, at)
  {
    assert Value(b, at + 1, at + 2) == b[at + 1];
  }

  lemma {:induction false} ZeroBytes(b: seq<byte>, at: nat, n: nat)
    requires at + n <= |b| && LE(b, at, n) == 0
    ensures forall j :: at <= j < at + n ==> b[j] == 0
    decreases n
  {
    if n > 0 {
      ZeroBytes(b, at + 1, n - 1);
    }
  }

  lemma {:induction false} SameField(b: seq<byte>, c: seq<byte>, at: nat, n: nat)
    requires at + n <= 510 <= |b| && 510 <= |c| && b[..510] == c[..510]
    ensures LE(b, at, n) == LE(c, at, n)
    decreases n
  {
    if n > 0 {
      SameField(b, c, at + 1, n - 1);
      assert b[..510][at] == c[..510][at];
    }
  }

  // ---- the boot sector -----------------------------------------------------

  /** A size byte: a count, or a negated power of two. */
  function SizeByte(raw: byte, turn: nat, unit: nat): nat {
    var count: nat := raw;
    if count < turn then count * unit else Pow2(256 - count)
  }

  /** An accepted boot sector is NTFS's, and the geometry is what its fields say: the bytes of a cluster at
      0x0b and 0x0d, those of a record at 0x40, $MFT at 0x30, and as many whole clusters as fit the size at
      0x28. */
  lemma {:induction false} BootBytes(b: Sector)
    requires BootAccepts(b)
    ensures b[510] == 0x55 && b[511] == 0xaa && b[3..11] == [78, 84, 70, 83, 32, 32, 32, 32]
    ensures (Word(b, 0x0b) == 512 || Word(b, 0x0b) == 4096) && IsPow2(SizeByte(b[0x0d], 0x81, 1))
    ensures var g := GeometryOf(b);
            && g.clusterBytes == Word(b, 0x0b) * SizeByte(b[0x0d], 0x81, 1)
            && g.recordBytes == SizeByte(b[0x40], 0x80, g.clusterBytes) && g.mftLcn == LE(b, 0x30, 8)
            && g.clusters * g.clusterBytes <= LE(b, 0x28, 8) * Word(b, 0x0b) < g.clusters * g.clusterBytes + g.clusterBytes
  {
    TwoBytes(b, 0x0b);
    TwoBytes(b, 0x1fe);
    DivParts(LE(b, 0x28, 8) * LE(b, 0x0b, 2), ClusterBytes(b));
  }

  // ---- the file record -----------------------------------------------------

  /** The first sector of what a map holds from `start` on. */
  lemma {:induction false} FirstSector(disk: Disk, g: Geometry, runs: seq<Run>, start: nat, n: nat)
    requires g.clusterBytes > 0 && n > 0 && RawAt(disk, g, runs, start, n).Some?
    ensures SectorRead(disk, g, runs, start) == Some(RawAt(disk, g, runs, start, n).value[..512])
  {
    var got := RawAt(disk, g, runs, start, n - 1).value;
    if n > 1 {
      FirstSector(disk, g, runs, start, n - 1);
      assert RawAt(disk, g, runs, start, n).value[..512] == got[..512];
    } else {
      var only := SectorRead(disk, g, runs, start + (n - 1) * 512).value;
      assert RawAt(disk, g, runs, start, n).value == got + only == only == only[..512];
    }
  }

  /** The first sector of a record on the device is the record's own, but for its last two bytes. */
  lemma {:induction false} RecordSector(disk: Disk, g: Geometry, runs: seq<Run>, limit: nat, recno: nat) returns (b: Sector)
    requires g.clusterBytes > 0 && RecordSize(g.recordBytes) && RecordAt(disk, g, runs, limit, recno).Some?
    ensures SectorRead(disk, g, runs, recno * g.recordBytes) == Some(b)
    ensures b[..4] == [70, 73, 76, 69] && b[..510] == RecordAt(disk, g, runs, limit, recno).value[..510]
    ensures LE(b, 0x04, 2) == 0x30 ==> LE(b, 0x2c, 4) == recno
  {
    var n := g.recordBytes / 512;
    var raw := RawAt(disk, g, runs, recno * g.recordBytes, n).value;
    FirstSector(disk, g, runs, recno * g.recordBytes, n);
    b := raw[..512];
    var usa := UsaOffset(raw);
    forall j | 0 <= j < 510 ensures Restore(raw, usa, n)[j] == raw[j] {
      RestoreKeeps(raw, usa, n, j);
    }
    var r := Restore(raw, usa, n);
    assert b[..510] == r[..510];
    assert b[..4] == raw[..4];
    SameField(b, raw, 0x04, 2);
    SameField(b, r, 0x2c, 4);
  }

  /** A base record in use that is no directory, with this sequence number: bytes 0x10, 0x16 and 0x20. */
  predicate BaseBytes(b: seq<byte>, seqNo: int) {
    && |b| == 512 && Word(b, 0x10) == seqNo
    && b[0x16] % 2 == 1 && b[0x16] / 2 % 2 == 0
    && forall j :: 0x20 <= j < 0x28 ==> b[j] == 0
  }

  lemma {:induction false} BaseFields(recs: NtfsFile.Mft, recno: nat, seqNo: nat, r: seq<byte>, b: Sector)
    requires NtfsFile.BaseRecord(recs, recno, seqNo, r) && seqNo > 0 && b[..510] == r[..510]
    ensures BaseBytes(b, seqNo)
  {
    assert forall j :: 0 <= j < 510 ==> b[j] == r[j] by {
      forall j | 0 <= j < 510 ensures b[j] == r[j] {
        assert b[..510][j] == r[..510][j];
      }
    }
    TwoBytes(r, 0x10);
    TwoBytes(r, 0x16);
    assert RecordFlags(r) == Word(r, 0x16);
    ZeroBytes(r, 0x20, 8);
  }

  /** The device stores b as the first sector of record `rec`: a file's base record with this sequence
      number, which, where it states its own number, is that record. */
  ghost predicate StoredBase(disk: Disk, g: Geometry, runs: seq<Run>, rec: nat, seqNo: nat, b: Sector)
    requires g.clusterBytes > 0
  {
    && SectorRead(disk, g, runs, rec * g.recordBytes) == Some(b)
    && b[..4] == [70, 73, 76, 69] && BaseBytes(b, seqNo) && (LE(b, 0x04, 2) == 0x30 ==> LE(b, 0x2c, 4) == rec)
  }

  lemma {:induction false} BaseStored(disk: Disk, g: Geometry, runs: seq<Run>, limit: nat, rec: nat, seqNo: nat, r: seq<byte>) returns (b: Sector)
    requires g.clusterBytes > 0 && RecordSize(g.recordBytes) && seqNo > 0 && NtfsFile.BaseRecord(Records(disk, g, runs, limit), rec, seqNo, r)
    ensures StoredBase(disk, g, runs, rec, seqNo, b)
  {
    b := RecordSector(disk, g, runs, limit, rec);
    BaseFields(Records(disk, g, runs, limit), rec, seqNo, r, b);
  }

  lemma {:induction false} MapBase(disk: Disk, g: Geometry, recs: NtfsFile.Mft, rec: nat, seqNo: nat, cap: nat, m: NtfsFile.Map)
    requires NtfsFile.IsMap(disk, g, recs, rec, seqNo, true, cap, m)
    ensures NtfsFile.BaseRecord(recs, rec, seqNo, m.base)
  {
  }

  /** What a derivation rests on, where the device stores it: the geometry of its boot sector, and the base
      record of the very file asked for. */
  lemma {:induction false} DerivedRecord(dev: Option<Device>, shape: Views.Shape, rec: nat, seqNo: nat, w: Evidence) returns (b: Sector)
    requires Derivable(dev, shape, rec, seqNo, w)
    ensures 24 <= rec < 0x1_0000_0000 && 0 < seqNo && dev.value.disk(0).Some? && BootAccepts(dev.value.disk(0).value)
    ensures shape == ShapeOf(GeometryOf(dev.value.disk(0).value)) && w.g == GeometryOf(dev.value.disk(0).value)
    ensures StoredBase(dev.value.disk, w.g, w.mft.runs, rec, seqNo, b)
  {
    var disk := dev.value.disk;
    TracedParts(disk, rec, seqNo, w);
    MapBase(disk, w.g, MftRecords(disk, w), rec, seqNo, Views.MAX_EXTENTS, w.file);
    b := BaseStored(disk, w.g, w.mft.runs, w.mft.size, rec, seqNo, w.file.base);
  }

  /** So one device derives one record under one sequence number at most: a reused record is another file. */
  lemma {:induction false} SequenceUnique(dev: Option<Device>, shape: Views.Shape, rec: nat, a: nat, b: nat, d: Views.Derived, e: Views.Derived)
    requires Derives(dev, shape, rec, a, d) && Derives(dev, shape, rec, b, e)
    ensures a == b && d == e
  {
    forall w, v | Derivable(dev, shape, rec, a, w) && Derivable(dev, shape, rec, b, v) ensures a == b {
      var disk := dev.value.disk;
      var s := DerivedRecord(dev, shape, rec, a, w);
      var t := DerivedRecord(dev, shape, rec, b, v);
      TracedParts(disk, rec, a, w);
      TracedParts(disk, rec, b, v);
      NtfsFile.MapUnique(disk, w.g, NtfsFile.BootRecords(disk, w.g), 0, 0, false, MFT_RUNS, w.mft, v.mft);
    }
    DerivesUnique(dev, shape, rec, a, d, e);
  }

  // ---- the segments --------------------------------------------------------

  /** A segment's header: an unnamed non-resident $DATA, neither sparse nor encrypted nor compressed. */
  predicate SegmentBytes(b: seq<byte>) {
    && |b| >= 0x40 && b[0] == 0x80 && b[1] == 0 && b[2] == 0 && b[3] == 0
    && b[8] == 1 && b[9] == 0 && b[0x22] == 0
    && b[0x0d] < 0x40 && b[0x0c] % 2 == 0 && (LE(b, 0x10, 8) == 0 ==> b[0x0c] == 0)
  }

  lemma {:induction false} KindBytes(b: seq<byte>, at: nat)
    requires at + 4 <= |b| && LE(b, at, 4) == 0x80
    ensures b[at] == 0x80 && b[at + 1] == 0 && b[at + 2] == 0 && b[at + 3] == 0
  {
    assert LE(b, at, 4) == b[at] + 256 * LE(b, at + 1, 3);
    ZeroBytes(b, at + 1, 3);
  }

  lemma {:induction false} FlagBytes(b: seq<byte>, at: nat)
    requires at + 2 <= |b|
    ensures LE(b, at, 2) % 256 == b[at] && LE(b, at, 2) % 2 == b[at] % 2
    ensures LE(b, at, 2) / 0x8000 % 2 == 0 && LE(b, at, 2) / 0x4000 % 2 == 0 <==> b[at + 1] < 0x40
  {
    TwoBytes(b, at);
  }

  /** The header of a drawn piece is what its own bytes say. */
  lemma {:induction false} OwnHeader(r: seq<byte>, used: nat, pos: nat, h: Header, body: seq<byte>)
    requires used <= |r| && AttrAt(r, used, pos) == Attribute(h) && h.size >= 0x40 && pos + h.size <= |r| && body == r[pos..pos + h.size]
    ensures h.kind == LE(body, 0, 4) && h.nonresident == body[8] && h.nameLength == body[9] && h.flags == LE(body, 0x0c, 2)
    ensures h.mapping.Mapping? && h.mapping.lowest == LE(body, 0x10, 8) && h.mapping.unit == body[0x22]
    ensures h.mapping.alloc == LE(body, 0x28, 8) && h.mapping.data == LE(body, 0x30, 8) && h.mapping.init == LE(body, 0x38, 8)
  {
    FieldIn(r, pos, body, 0, 4);
    FieldIn(r, pos, body, 0x0c, 2);
    FieldIn(r, pos, body, 0x10, 8);
    FieldIn(r, pos, body, 0x28, 8);
    FieldIn(r, pos, body, 0x30, 8);
    FieldIn(r, pos, body, 0x38, 8);
  }

  lemma {:induction false} FieldIn(r: seq<byte>, pos: nat, body: seq<byte>, at: nat, n: nat)
    requires at + n <= |body| && pos + |body| <= |r| && body == r[pos..pos + |body|]
    ensures LE(body, at, n) == LE(r, pos + at, n)
    decreases n
  {
    if n > 0 {
      FieldIn(r, pos, body, at + 1, n - 1);
      assert body[at] == r[pos..pos + |body|][at];
    }
  }

  lemma {:induction false} PlainBytes(q: Part, used: nat)
    requires Plain(q) && used <= |q.piece.rec| && AttrAt(q.piece.rec, used, q.piece.pos) == Attribute(q.piece.h) && Bounded(q.piece.h, used - q.piece.pos)
    requires q.piece.pos + q.piece.h.size <= |q.piece.rec| && q.piece.body == q.piece.rec[q.piece.pos..q.piece.pos + q.piece.h.size]
    ensures SegmentBytes(q.piece.body)
    ensures q.piece.h.mapping.alloc == LE(q.piece.body, 0x28, 8) && q.piece.h.mapping.data == LE(q.piece.body, 0x30, 8)
    ensures q.piece.h.mapping.init == LE(q.piece.body, 0x38, 8)
  {
    OwnHeader(q.piece.rec, used, q.piece.pos, q.piece.h, q.piece.body);
    KindBytes(q.piece.body, 0);
    FlagBytes(q.piece.body, 0x0c);
  }

  /** A segment lies in a live record that is the file's own or names it, with its age, as its base, and its
      header is a plain $DATA's. */
  ghost predicate SegmentStored(recs: NtfsFile.Mft, recno: nat, seqNo: nat, p: Piece) {
    && recs(p.recno) == Some(p.rec) && |p.rec| >= 0x30 && LE(p.rec, 0x16, 2) % 2 == 1
    && LE(p.rec, 0x20, 8) == (if p.recno == recno then 0 else recno + seqNo * 0x1_0000_0000_0000)
    && p.pos + |p.body| <= |p.rec| && p.body == p.rec[p.pos..p.pos + |p.body|] && SegmentBytes(p.body)
  }

  lemma {:induction false} DrawnBytes(recs: NtfsFile.Mft, recno: nat, ownSeq: nat, q: Part)
    requires NtfsFile.Drawn(recs, recno, ownSeq, q.piece) && Plain(q)
    ensures SegmentStored(recs, recno, ownSeq, q.piece)
  {
    PlainBytes(q, BytesInUse(q.piece.rec));
  }

  lemma {:induction false} MapParts(disk: Disk, g: Geometry, recs: NtfsFile.Mft, recno: nat, seqNo: nat, cap: nat, m: NtfsFile.Map, i: nat)
    requires NtfsFile.IsMap(disk, g, recs, recno, seqNo, true, cap, m) && seqNo > 0 && i < |m.ps|
    ensures NtfsFile.Drawn(recs, recno, seqNo, m.ps[i].piece) && Plain(m.ps[i])
  {
  }

  lemma {:induction false} MapSegments(disk: Disk, g: Geometry, recs: NtfsFile.Mft, recno: nat, seqNo: nat, cap: nat, m: NtfsFile.Map)
    requires NtfsFile.IsMap(disk, g, recs, recno, seqNo, true, cap, m) && seqNo > 0
    ensures forall i :: 0 <= i < |m.ps| ==> SegmentStored(recs, recno, seqNo, m.ps[i].piece)
  {
    forall i | 0 <= i < |m.ps| ensures SegmentStored(recs, recno, seqNo, m.ps[i].piece) {
      MapParts(disk, g, recs, recno, seqNo, cap, m, i);
      DrawnBytes(recs, recno, seqNo, m.ps[i]);
    }
  }

  /** So lie all segments of a derived file. */
  lemma {:induction false} DerivedSegments(dev: Option<Device>, shape: Views.Shape, rec: nat, seqNo: nat, w: Evidence)
    requires Derivable(dev, shape, rec, seqNo, w)
    ensures forall i :: 0 <= i < |w.file.ps| ==> SegmentStored(MftRecords(dev.value.disk, w), rec, seqNo, w.file.ps[i].piece)
  {
    TracedParts(dev.value.disk, rec, seqNo, w);
    MapSegments(dev.value.disk, w.g, MftRecords(dev.value.disk, w), rec, seqNo, Views.MAX_EXTENTS, w.file);
  }

  /** The size of a map is the one its first segment states. */
  lemma {:induction false} MapSize(disk: Disk, g: Geometry, recs: NtfsFile.Mft, recno: nat, seqNo: nat, cap: nat, m: NtfsFile.Map)
    requires NtfsFile.IsMap(disk, g, recs, recno, seqNo, true, cap, m) && seqNo > 0
    ensures m.ps != [] && NtfsFile.Sized(g, m.ps, m.runs, m.size)
  {
  }

  lemma {:induction false} DrawnSizes(recs: NtfsFile.Mft, recno: nat, ownSeq: nat, q: Part)
    requires NtfsFile.Drawn(recs, recno, ownSeq, q.piece) && Plain(q)
    ensures |q.piece.body| >= 0x40
    ensures q.piece.h.mapping.alloc == LE(q.piece.body, 0x28, 8) && q.piece.h.mapping.data == LE(q.piece.body, 0x30, 8)
    ensures q.piece.h.mapping.init == LE(q.piece.body, 0x38, 8)
  {
    PlainBytes(q, BytesInUse(q.piece.rec));
  }

  /** The file's size is the one its first segment states, initialised to its end and in whole sectors, and
      its runs hold the allocated size stated there. */
  lemma {:induction false} DerivedSize(dev: Option<Device>, shape: Views.Shape, rec: nat, seqNo: nat, w: Evidence)
    requires Derivable(dev, shape, rec, seqNo, w)
    ensures w.file.ps != [] && |w.file.ps[0].piece.body| >= 0x40
    ensures var b := w.file.ps[0].piece.body;
            && w.file.size == LE(b, 0x30, 8) == LE(b, 0x38, 8) && w.file.size % 512 == 0
            && w.file.size <= LE(b, 0x28, 8) == Total(w.file.runs) * w.g.clusterBytes
  {
    TracedParts(dev.value.disk, rec, seqNo, w);
    var recs := MftRecords(dev.value.disk, w);
    MapSize(dev.value.disk, w.g, recs, rec, seqNo, Views.MAX_EXTENTS, w.file);
    MapParts(dev.value.disk, w.g, recs, rec, seqNo, Views.MAX_EXTENTS, w.file, 0);
    DrawnSizes(recs, rec, seqNo, w.file.ps[0]);
  }

  // ---- the attribute list --------------------------------------------------

  /** A list outside the record is whole: no flags, from VCN 0, initialised to its end, at most 64 KiB. */
  predicate ListHeader(r: seq<byte>, pos: nat) {
    && pos + 0x18 <= |r| && LE(r, pos, 4) == 0x20
    && (r[pos + 8] != 0 ==>
          pos + 0x40 <= |r| && LE(r, pos + 0x0c, 2) == 0 && LE(r, pos + 0x10, 8) == 0 && LE(r, pos + 0x38, 8) == LE(r, pos + 0x30, 8) <= 0x1_0000)
  }

  lemma {:induction false} ListSits(disk: Disk, g: Geometry, r: seq<byte>, x: NtfsFile.Place, cap: nat, al: seq<byte>)
    requires Checked(r) && NtfsFile.Sits(r, BytesInUse(r), x, true) && NtfsFile.ListBytes(disk, g, r, x, cap, al)
    ensures ListHeader(r, x.pos)
  {
  }

  /** A file with an attribute list has one, and such a one. */
  lemma {:induction false} DerivedList(dev: Option<Device>, shape: Views.Shape, rec: nat, seqNo: nat, w: Evidence)
    requires Derivable(dev, shape, rec, seqNo, w) && Checked(w.file.base) && NtfsFile.Lists(w.file.base) != []
    ensures |NtfsFile.Lists(w.file.base)| == 1 && ListHeader(w.file.base, NtfsFile.Lists(w.file.base)[0].pos)
  {
    TracedParts(dev.value.disk, rec, seqNo, w);
    MapList(dev.value.disk, w.g, MftRecords(dev.value.disk, w), rec, seqNo, Views.MAX_EXTENTS, w.file);
  }

  lemma {:induction false} MapList(disk: Disk, g: Geometry, recs: NtfsFile.Mft, recno: nat, seqNo: nat, cap: nat, m: NtfsFile.Map)
    requires NtfsFile.IsMap(disk, g, recs, recno, seqNo, true, cap, m) && Checked(m.base) && NtfsFile.Lists(m.base) != []
    ensures |NtfsFile.Lists(m.base)| == 1 && ListHeader(m.base, NtfsFile.Lists(m.base)[0].pos)
  {
    var r := m.base;
    var x := NtfsFile.Lists(r)[0];
    NtfsFile.FoundSits(r, BytesInUse(r), AttrsOffset(r), true);
    assert x in NtfsFile.Lists(r);
    forall al | NtfsFile.ListBytes(disk, g, r, x, cap, al) ensures ListHeader(r, x.pos) {
      ListSits(disk, g, r, x, cap, al);
    }
  }

  // ---- $Volume -------------------------------------------------------------

  /** Where $Volume's flags are. */
  lemma {:induction false} FlagsAt(recs: NtfsFile.Mft, r: seq<byte>, flags: nat) returns (pos: nat, at: nat)
    requires NtfsFile.VolumeInformation(recs, r, flags)
    ensures recs(3) == Some(r) && pos + 0x18 <= |r| && at + 12 <= |r|
    ensures LE(r, pos, 4) == 0x70 && r[pos + 8] == 0 && at == pos + LE(r, pos + 0x14, 2)
    ensures flags % 2 == r[at + 10] % 2
  {
    var x := NtfsFile.FirstInformation(r, BytesInUse(r), AttrsOffset(r)).value;
    FirstInformationAt(r, BytesInUse(r), AttrsOffset(r));
    pos, at := x.pos, x.pos + x.h.valueOffset;
    LowBit(r, at + 10);
  }

  lemma {:induction false} LowBit(b: seq<byte>, at: nat)
    requires at + 2 <= |b|
    ensures LE(b, at, 2) % 2 == b[at] % 2
  {
    TwoBytes(b, at);
  }

  /** The dirty bit a probe reports is bit 0 of byte 10 of a resident $VOLUME_INFORMATION in record 3. */
  lemma {:induction false} ProbedDirty(plain: Option<Device>, raw: Option<Device>, same: bool, p: Views.Probe, w: Evidence, r: seq<byte>, flags: nat)
    returns (pos: nat, at: nat)
    requires Probeable(plain, raw, same, p, w, r, flags)
    ensures MftRecords(plain.value.disk, w)(3) == Some(r) && pos + 0x18 <= |r| && at + 12 <= |r|
    ensures LE(r, pos, 4) == 0x70 && r[pos + 8] == 0 && at == pos + LE(r, pos + 0x14, 2)
    ensures p.dirty <==> r[at + 10] % 2 == 1
  {
    ProbeParts(plain.value.disk, w, r, flags);
    pos, at := FlagsAt(MftRecords(plain.value.disk, w), r, flags);
  }

  lemma {:induction false} FirstInformationAt(r: seq<byte>, used: nat, pos: nat)
    requires used <= |r| && NtfsFile.FirstInformation(r, used, pos).Some?
    ensures var x := NtfsFile.FirstInformation(r, used, pos).value;
            && x.pos + 0x18 <= |r| && LE(r, x.pos, 4) == 0x70 && r[x.pos + 8] == 0 && x.h.valueOffset == LE(r, x.pos + 0x14, 2)
    decreases used + 1 - pos
  {
    var a := AttrAt(r, used, pos);
    if a.Attribute? && !(a.h.kind == AT_VOLUME_INFORMATION && a.h.nonresident == 0) {
      FirstInformationAt(r, used, pos + a.h.size);
    }
  }
}
