/** kernel/dm-paguro/pg_ctl.c: pg_derive -- from a device and a file's identity to the extents a
    claim protects -- and what PG_VOLUME_ADD learns about a volume. */
module Derivation {
  import opened Words
  import opened Extents
  import opened Runlist
  import opened Ntfs
  import opened NtfsRecord
  import NtfsWalk
  import NtfsFile
  import NtfsMap
  import Claim
  import Views

  const MFT_RUNS := 2048
  const E_SELF_OVERLAP := 40

  /** A block device that opened: what it holds, and its size. */
  datatype Device = Device(disk: Disk, sectors: u64)

  function ShapeOf(g: Geometry): Views.Shape {
    Views.Shape(g.sectors, g.clusterBytes, g.recordBytes, g.mftLcn)
  }

  /** How a derivation was reached: the geometry, $MFT's map and the file's. */
  datatype Evidence = Evidence(g: Geometry, mft: NtfsFile.Map, file: NtfsFile.Map)

  const NoEvidence := Evidence(Geometry(0, 0, 0, 0, 0), NtfsFile.NoMap, NtfsFile.NoMap)

  /** The records of $MFT, found through its map. */
  ghost function MftRecords(disk: Disk, w: Evidence): NtfsFile.Mft
    requires Sane(w.g)
  {
    Records(disk, w.g, w.mft.runs, w.mft.size)
  }

  /** The map of $MFT, found through the boot sector, or that of the file, found through $MFT. */
  ghost predicate Walked(disk: Disk, rec: nat, seqNo: nat, w: Evidence, mft: bool)
    requires Sane(w.g)
  {
    if mft then NtfsFile.IsMftMap(disk, MFT_RUNS, w.mft) && w.g == GeometryOf(disk(0).value)
    else NtfsFile.IsMap(disk, w.g, MftRecords(disk, w), rec, seqNo, true, Views.MAX_EXTENTS, w.file)
  }

  /** w is how the device maps file (rec, seqNo). */
  ghost predicate Traced(disk: Disk, rec: nat, seqNo: nat, w: Evidence) {
    Sane(w.g) && forall mft :: Walked(disk, rec, seqNo, w, mft)
  }

  /** The norm is the normal form of the file's extents. */
  ghost predicate NormOf(file: seq<Extent>, norm: seq<Extent>) {
    Normalised(norm) && forall x :: Covers(norm, x) <==> Covers(file, x)
  }

  /** What a successful derivation hands to a claim. */
  ghost predicate Usable(file: seq<Extent>, norm: seq<Extent>) {
    Coalesced(file) && NormOf(file, norm) && |file| <= Views.MAX_EXTENTS && |norm| <= Views.MAX_EXTENTS
  }

  method OpenNtfs(disk: Disk, rec: array<byte>, alist: array<byte>, ghost want: NtfsFile.Map)
    returns (err: int, g: Geometry, mft: seq<Run>, mftBytes: u64, ghost m: NtfsFile.Map)
    requires rec.Length == MAX_RECORD && alist.Length == MAX_ALIST && rec != alist
    modifies rec, alist
    ensures err == 0 <==> NtfsFile.Opens(disk, MFT_RUNS)
    ensures err == 0 ==> Sane(g) && InVolume(mft, g.clusters) && NtfsFile.IsMftMap(disk, MFT_RUNS, m) && g == GeometryOf(disk(0).value)
    ensures err == 0 ==> m.runs == mft && m.size == mftBytes
    ensures NtfsFile.IsMftMap(disk, MFT_RUNS, want) ==> m == want
  {
    var runs := new Run[MFT_RUNS];
    var n;
    mft := [];
    err, g, n, mftBytes, m := NtfsFile.Open(disk, rec, alist, runs, want);
    if err == 0 {
      mft := runs[..n];
    }
  }

  /** The file's runs through a $MFT that is mapped. */
  method ReadFile(disk: Disk, g: Geometry, mft: seq<Run>, mftBytes: u64, rec: u64, seqNo: nat, buf: array<byte>, alist: array<byte>,
                  ghost m: NtfsFile.Map, ghost want: NtfsFile.Map)
    returns (err: int, runs: seq<Run>, size: u64, ghost w: Evidence)
    requires Sane(g) && InVolume(mft, g.clusters) && m.runs == mft && m.size == mftBytes
    requires buf.Length == MAX_RECORD && alist.Length == MAX_ALIST && buf != alist
    modifies buf, alist
    ensures err == 0 ==> NtfsFile.UserFile(rec, seqNo) && w == Evidence(g, m, w.file) && w.file.runs == runs && w.file.size == size
    ensures err == 0 ==> NtfsFile.IsMap(disk, g, MftRecords(disk, w), rec, seqNo, true, Views.MAX_EXTENTS, w.file)
    ensures NtfsFile.UserFile(rec, seqNo) && NtfsFile.IsMap(disk, g, MftRecords(disk, Evidence(g, m, want)), rec, seqNo, true, Views.MAX_EXTENTS, want)
            ==> err == 0 && w.file == want
  {
    var out := new Run[Views.MAX_EXTENTS];
    var n;
    ghost var f;
    NtfsFile.RecordsServe(disk, g, mft, mftBytes);
    err, n, size, f := NtfsFile.File(disk, g, mft, mftBytes, rec, seqNo, buf, alist, out, Records(disk, g, mft, mftBytes), want);
    runs, w := if err == 0 then out[..n] else [], Evidence(g, m, f);
  }

  /** The file's runs through the device's $MFT, if the geometry is still the one seen at PG_VOLUME_ADD;
      exactly when the device maps the file, and then as `want` says. */
  method ReadRuns(disk: Disk, shape: Views.Shape, rec: u64, seqNo: nat, ghost want: Evidence)
    returns (err: Views.Error, g: Geometry, runs: seq<Run>, size: u64, ghost w: Evidence)
    ensures err == Views.NoError ==> Sane(g) && ShapeOf(g) == shape && NtfsFile.UserFile(rec, seqNo)
    ensures err == Views.NoError ==> w.g == g && w.file.runs == runs && w.file.size == size && Traced(disk, rec, seqNo, w)
    ensures Traced(disk, rec, seqNo, want) && ShapeOf(want.g) == shape && NtfsFile.UserFile(rec, seqNo) ==> err == Views.NoError && w == want
  {
    var buf, alist := new byte[MAX_RECORD], new byte[MAX_ALIST];
    runs, size, w := [], 0, NoEvidence;
    if Traced(disk, rec, seqNo, want) {
      TracedParts(disk, rec, seqNo, want);
    }
    var e, mft, mftBytes;
    ghost var m;
    e, g, mft, mftBytes, m := OpenNtfs(disk, buf, alist, want.mft);
    if e != 0 {
      return Views.Core(e), g, [], 0, w;
    }
    if ShapeOf(g) != shape {
      return Views.Geometry, g, [], 0, w;
    }
    e, runs, size, w := ReadFile(disk, g, mft, mftBytes, rec, seqNo, buf, alist, m, want.file);
    if e != 0 {
      return Views.Core(e), g, [], 0, w;
    }
    TracedFrom(disk, rec, seqNo, w);
    err := Views.NoError;
  }

  lemma {:induction false} TracedParts(disk: Disk, rec: nat, seqNo: nat, w: Evidence)
    requires Traced(disk, rec, seqNo, w)
    ensures NtfsFile.IsMftMap(disk, MFT_RUNS, w.mft) && NtfsFile.Opens(disk, MFT_RUNS) && w.g == GeometryOf(disk(0).value)
    ensures NtfsFile.IsMap(disk, w.g, MftRecords(disk, w), rec, seqNo, true, Views.MAX_EXTENTS, w.file)
    ensures NtfsFile.HasMap(disk, w.g, MftRecords(disk, w), rec, seqNo, true, Views.MAX_EXTENTS)
  {
    assert Walked(disk, rec, seqNo, w, true) && Walked(disk, rec, seqNo, w, false);
  }

  lemma {:induction false} TracedFrom(disk: Disk, rec: nat, seqNo: nat, w: Evidence)
    requires NtfsFile.IsMftMap(disk, MFT_RUNS, w.mft) && w.g == GeometryOf(disk(0).value)
    requires NtfsFile.IsMap(disk, w.g, MftRecords(disk, w), rec, seqNo, true, Views.MAX_EXTENTS, w.file)
    ensures Traced(disk, rec, seqNo, w)
  {
  }

  /** What a traced map guarantees. */
  lemma {:induction false} TracedRuns(disk: Disk, rec: nat, seqNo: nat, w: Evidence)
    requires Traced(disk, rec, seqNo, w)
    ensures Sane(w.g) && InVolume(w.file.runs, w.g.clusters) && |w.file.runs| <= Views.MAX_EXTENTS
    ensures w.file.size % 512 == 0 && w.file.size <= NtfsWalk.Total(w.file.runs) * w.g.clusterBytes
  {
    TracedParts(disk, rec, seqNo, w);
  }

  /** The runs as extents in file order and in normal form. */
  method ToLists(g: Geometry, runs: seq<Run>) returns (err: Views.Error, file: seq<Extent>, norm: seq<Extent>)
    requires Sane(g) && InVolume(runs, g.clusters) && |runs| <= Views.MAX_EXTENTS
    ensures err == Views.NoError ==> Usable(file, norm) && Disjoint(file) && NtfsMap.Mapped(g, runs, |runs|, file)
    ensures err != Views.NoError ==> err == Views.Core(E_SELF_OVERLAP)
    ensures err == Views.NoError <==> NoRepeat(NtfsMap.FileSectors(g, runs))
  {
    var fileOut, normOut := new Extent[Views.MAX_EXTENTS], new Extent[Views.MAX_EXTENTS];
    file, norm := [], [];
    assert forall i :: 0 <= i < |runs| ==> RunInside(runs[i], g.clusters);
    var e, k := NtfsMap.ToExtents(g, runs, fileOut, Views.MAX_EXTENTS);
    if e != 0 {
      return Views.Core(e), [], [];
    }
    file := fileOut[..k];
    assert runs[..|runs|] == runs;
    var why, m := Claim.Normalise(file, normOut, Views.MAX_EXTENTS);
    if why.Some? {
      return Views.Core(if why.value.TooManyExtents? then E_TOO_MANY_EXTENTS else E_SELF_OVERLAP), [], [];
    }
    norm := normOut[..m];
    err := Views.NoError;
  }

  lemma {:induction false} DerivedSound(g: Geometry, runs: seq<Run>, file: seq<Extent>, size: u64)
    requires Sane(g) && InVolume(runs, g.clusters) && Disjoint(file) && NtfsMap.Mapped(g, runs, |runs|, file)
    requires size % 512 == 0 && size <= NtfsWalk.Total(runs) * g.clusterBytes
    ensures Sectors(file) == NtfsMap.FileSectors(g, runs)
    ensures Views.Sound(Views.Derived(Sectors(file), size), g.sectors)
  {
    assert runs[..|runs|] == runs;
    DisjointNoRepeat(file);
    NtfsMap.SectorsInside(file, g.sectors);
    NtfsMap.DataFits(g, runs, size);
  }

  /** The device maps the user file, in the geometry seen at PG_VOLUME_ADD, to sectors no two of which are
      the same. */
  ghost predicate Derivable(dev: Option<Device>, shape: Views.Shape, rec: nat, seqNo: nat, w: Evidence) {
    && dev.Some? && NtfsFile.UserFile(rec, seqNo) && Traced(dev.value.disk, rec, seqNo, w) && ShapeOf(w.g) == shape
    && NoRepeat(NtfsMap.FileSectors(w.g, w.file.runs))
  }

  /** d is the sectors and the size of a file that was traced. */
  ghost predicate Shown(w: Evidence, d: Views.Derived)
    requires Sane(w.g)
  {
    d.Derived? && d.file == NtfsMap.FileSectors(w.g, w.file.runs) && d.size == w.file.size
  }

  /** d is what the device says of the file. */
  ghost predicate Derives(dev: Option<Device>, shape: Views.Shape, rec: nat, seqNo: nat, d: Views.Derived) {
    exists w :: Derivable(dev, shape, rec, seqNo, w) && Shown(w, d)
  }

  /** The exact answer: what the device says of the file, or that it says nothing. */
  ghost predicate AnswerFor(dev: Option<Device>, shape: Views.Shape, rec: nat, seqNo: nat, d: Views.Derived) {
    if d.Derived? then Derives(dev, shape, rec, seqNo, d) else !exists w :: Derivable(dev, shape, rec, seqNo, w)
  }

  /** A device traces a file in one way. */
  lemma {:induction false} TracedUnique(disk: Disk, rec: nat, seqNo: nat, w: Evidence, v: Evidence)
    requires Traced(disk, rec, seqNo, w) && Traced(disk, rec, seqNo, v)
    ensures w == v
  {
    TracedParts(disk, rec, seqNo, w);
    TracedParts(disk, rec, seqNo, v);
    NtfsFile.MapUnique(disk, w.g, NtfsFile.BootRecords(disk, w.g), 0, 0, false, MFT_RUNS, w.mft, v.mft);
    NtfsFile.MapUnique(disk, w.g, MftRecords(disk, w), rec, seqNo, true, Views.MAX_EXTENTS, w.file, v.file);
  }

  /** So it gives one answer. */
  lemma {:induction false} DerivesUnique(dev: Option<Device>, shape: Views.Shape, rec: nat, seqNo: nat, d: Views.Derived, other: Views.Derived)
    requires Derives(dev, shape, rec, seqNo, d) && Derives(dev, shape, rec, seqNo, other)
    ensures d == other
  {
    forall w, v | Derivable(dev, shape, rec, seqNo, w) && Derivable(dev, shape, rec, seqNo, v) ensures w == v {
      TracedUnique(dev.value.disk, rec, seqNo, w, v);
    }
  }

  /** pg_derive: the extents of file (rec, seqNo) in file order and normalised, with its size; exactly when
      the device maps it. */
  method Derive(dev: Option<Device>, shape: Views.Shape, rec: u64, seqNo: nat)
    returns (err: Views.Error, file: seq<Extent>, norm: seq<Extent>, size: u64, ghost d: Views.Derived)
    ensures Views.Sound(d, shape.sectors)
    ensures d == if err == Views.NoError then Views.Derived(Sectors(file), size) else Views.Underived(err)
    ensures AnswerFor(dev, shape, rec, seqNo, d)
    ensures err == Views.NoError ==> Usable(file, norm)
  {
    file, norm, size := [], [], 0;
    if dev.None? {
      return Views.Device, [], [], 0, Views.Underived(Views.Device);
    }
    ghost var want, w := NoEvidence, NoEvidence;
    if v :| Derivable(dev, shape, rec, seqNo, v) {
      want := v;
    }
    err, file, norm, size, w := DeriveFrom(dev, shape, rec, seqNo, want);
    d := if err == Views.NoError then Views.Derived(Sectors(file), size) else Views.Underived(err);
    if err == Views.NoError {
      assert Derivable(dev, shape, rec, seqNo, w) && Shown(w, d);
    }
  }

  method DeriveFrom(dev: Option<Device>, shape: Views.Shape, rec: u64, seqNo: nat, ghost want: Evidence)
    returns (err: Views.Error, file: seq<Extent>, norm: seq<Extent>, size: u64, ghost w: Evidence)
    requires dev.Some?
    ensures err == Views.NoError ==> Usable(file, norm) && Views.Sound(Views.Derived(Sectors(file), size), shape.sectors)
    ensures err == Views.NoError ==> Derivable(dev, shape, rec, seqNo, w) && Shown(w, Views.Derived(Sectors(file), size))
    ensures Derivable(dev, shape, rec, seqNo, want) ==> err == Views.NoError
  {
    file, norm := [], [];
    var g, runs;
    err, g, runs, size, w := ReadRuns(dev.value.disk, shape, rec, seqNo, want);
    if err != Views.NoError {
      return;
    }
    TracedRuns(dev.value.disk, rec, seqNo, w);
    err, file, norm := ToLists(g, runs);
    if err == Views.NoError {
      DerivedSound(g, runs, file, size);
    }
  }

  // ---- PG_VOLUME_ADD -------------------------------------------------------

  /** The shape is that of a volume whose own $MFT maps, and the dirty bit that of its $Volume. */
  ghost predicate ProbeShown(disk: Disk, shape: Views.Shape, dirty: bool, w: Evidence, r: seq<byte>, flags: nat) {
    && Sane(w.g) && shape == ShapeOf(w.g) && dirty == (flags % 2 == 1)
    && forall mft :: Probed(disk, w, r, flags, mft)
  }

  /** The map of $MFT, found through the boot sector, or the flags of $Volume, found through $MFT. */
  ghost predicate Probed(disk: Disk, w: Evidence, r: seq<byte>, flags: nat, mft: bool)
    requires Sane(w.g)
  {
    if mft then NtfsFile.IsMftMap(disk, MFT_RUNS, w.mft) && w.g == GeometryOf(disk(0).value)
    else NtfsFile.VolumeInformation(MftRecords(disk, w), r, flags)
  }

  /** The shape and the dirty bit, whenever the device shows them as `want`, `v` and `bits` say. */
  method ReadVolume(disk: Disk, ghost want: Evidence, ghost v: seq<byte>, ghost bits: nat)
    returns (e: int, shape: Views.Shape, dirty: bool, ghost w: Evidence, ghost r: seq<byte>, ghost flags: nat)
    ensures e == 0 ==> ProbeShown(disk, shape, dirty, w, r, flags)
    ensures forall s, d :: ProbeShown(disk, s, d, want, v, bits) ==> e == 0 && shape == s
  {
    var buf, alist := new byte[MAX_RECORD], new byte[MAX_ALIST];
    var g, mft, mftBytes, found;
    ghost var m;
    shape, dirty, w, r, flags := Views.Shape(0, 0, 0, 0), false, NoEvidence, [], 0;
    ghost var hope := exists s, d :: ProbeShown(disk, s, d, want, v, bits);
    if hope {
      ProbeParts(disk, want, v, bits);
    }
    e, g, mft, mftBytes, m := OpenNtfs(disk, buf, alist, want.mft);
    if e != 0 {
      return;
    }
    e, found, r := NtfsFile.VolumeFlags(disk, g, mft, mftBytes, buf);
    shape, dirty, flags := ShapeOf(g), found % 2 == 1, found;
    w := Evidence(g, m, NtfsFile.NoMap);
  }

  lemma {:induction false} ProbeParts(disk: Disk, w: Evidence, r: seq<byte>, flags: nat)
    requires exists s, d :: ProbeShown(disk, s, d, w, r, flags)
    ensures Sane(w.g) && NtfsFile.IsMftMap(disk, MFT_RUNS, w.mft) && NtfsFile.Opens(disk, MFT_RUNS) && w.g == GeometryOf(disk(0).value)
    ensures NtfsFile.VolumeInformation(MftRecords(disk, w), r, flags)
  {
    assert Probed(disk, w, r, flags, true) && Probed(disk, w, r, flags, false);
  }

  /** The plaintext device holds such a volume, and it fits the devices. */
  ghost predicate Probeable(plain: Option<Device>, raw: Option<Device>, same: bool, p: Views.Probe, w: Evidence, r: seq<byte>, flags: nat) {
    && p.Probed? && plain.Some? && ProbeShown(plain.value.disk, p.shape, p.dirty, w, r, flags)
    && p.shape.sectors <= plain.value.sectors && (same || (raw.Some? && p.shape.sectors <= raw.value.sectors))
  }

  ghost predicate Probes(plain: Option<Device>, raw: Option<Device>, same: bool, p: Views.Probe) {
    exists w, r, flags :: Probeable(plain, raw, same, p, w, r, flags)
  }

  /** The exact answer: what the devices show, or that they show no volume. */
  ghost predicate ProbeFor(plain: Option<Device>, raw: Option<Device>, same: bool, p: Views.Probe) {
    if p.Probed? then Probes(plain, raw, same, p) else p.error != Views.NoError && !exists q :: Probes(plain, raw, same, q)
  }

  /** The devices hold that many sectors. */
  ghost predicate Holds(plain: Option<Device>, raw: Option<Device>, same: bool, sectors: int) {
    plain.Some? && sectors <= plain.value.sectors && (!same ==> raw.Some? && sectors <= raw.value.sectors)
  }

  lemma {:induction false} ProbesFit(plain: Option<Device>, raw: Option<Device>, same: bool, p: Views.Probe)
    requires Probes(plain, raw, same, p)
    ensures p.Probed? && Holds(plain, raw, same, p.shape.sectors)
  {
  }

  /** They show one at most. */
  lemma {:induction false} ProbesUnique(plain: Option<Device>, raw: Option<Device>, same: bool, p: Views.Probe, q: Views.Probe)
    requires Probes(plain, raw, same, p) && Probes(plain, raw, same, q)
    ensures p == q
  {
    forall w, r, flags, v, t, bits | Probeable(plain, raw, same, p, w, r, flags) && Probeable(plain, raw, same, q, v, t, bits)
      ensures p == q
    {
      ProbeUnique(plain.value.disk, w, r, flags, v, t, bits);
    }
  }

  lemma {:induction false} ProbeUnique(disk: Disk, w: Evidence, r: seq<byte>, flags: nat, v: Evidence, t: seq<byte>, bits: nat)
    requires (exists s, d :: ProbeShown(disk, s, d, w, r, flags)) && exists s, d :: ProbeShown(disk, s, d, v, t, bits)
    ensures w.g == v.g && flags == bits
  {
    ProbeParts(disk, w, r, flags);
    ProbeParts(disk, v, t, bits);
    NtfsFile.MapUnique(disk, w.g, NtfsFile.BootRecords(disk, w.g), 0, 0, false, MFT_RUNS, w.mft, v.mft);
    NtfsFile.FlagsUnique(MftRecords(disk, w), r, flags, t, bits);
  }

  /** What PG_VOLUME_ADD asks of the devices before it takes a slot. */
  method ProbeVolume(plain: Option<Device>, raw: Option<Device>, same: bool) returns (p: Views.Probe)
    ensures ProbeFor(plain, raw, same, p)
  {
    if plain.None? {
      return Views.Unprobed(Views.Device);
    }
    ghost var q, want, v, bits := Views.Unprobed(Views.Device), NoEvidence, [], 0;
    if x: Views.Probe, a: Evidence, b: seq<byte>, c: nat :| Probeable(plain, raw, same, x, a, b, c) {
      q, want, v, bits := x, a, b, c;
    }
    var e, shape, dirty;
    ghost var w, r, flags;
    e, shape, dirty, w, r, flags := ReadVolume(plain.value.disk, want, v, bits);
    if e != 0 {
      return Views.Unprobed(Views.Core(e));
    }
    if plain.value.sectors < shape.sectors || (!same && (raw.None? || raw.value.sectors < shape.sectors)) {
      return Views.Unprobed(Views.Device);
    }
    p := Views.Probed(shape, dirty);
    assert Probeable(plain, raw, same, p, w, r, flags);
  }
}
