/** crates/paguro-core/src/bde.rs: the decrypted view of a BitLocker volume -- which physical unit
    each unit of the view is read from, and the run-length map over it. */
module BitLocker {
  import opened Words
  import opened Extents
  import Claim

  const REGION_SIZE := 0x1_0000

  // ---- the layout ----------------------------------------------------------

  /** A byte range [off, off + len). */
  datatype Region = Region(off: u64, len: u64)

  predicate Inside(r: Region, x: int) {
    r.off <= x < r.off + r.len
  }

  datatype Layout = Layout(bps: u64, volumeSize: u64, metadata: seq<u64>, relocLen: u64, relocOffset: u64,
                           extra: Option<u64>, encryptedSize: u64, partial: bool)

  /** The relocated copy's home and the metadata regions read as zeros. */
  function Hidden(l: Layout): (hs: seq<Region>)
    requires |l.metadata| == 3
    ensures |hs| == 4
  {
    [Region(l.relocOffset, l.relocLen), Region(l.metadata[0], REGION_SIZE), Region(l.metadata[1], REGION_SIZE), Region(l.metadata[2], REGION_SIZE)]
  }

  /** The six regions of a layout; an absent one is empty. */
  function Regions(l: Layout): (rs: seq<Region>)
    requires |l.metadata| == 3
    ensures |rs| == 6
  {
    [Region(0, l.relocLen)] + Hidden(l) + [if l.extra.Some? then Region(l.extra.value, REGION_SIZE) else Region(0, 0)]
  }

  predicate Apart(a: Region, b: Region) {
    a.len == 0 || b.len == 0 || a.off + a.len <= b.off || b.off + b.len <= a.off
  }

  ghost predicate AllApart(rs: seq<Region>, size: int) {
    && (forall i :: 0 <= i < |rs| ==> rs[i].off + rs[i].len <= size)
    && (forall i, j :: 0 <= i < j < |rs| ==> Apart(rs[i], rs[j]))
  }

  predicate Aligned(x: int, bps: int)
    requires bps == 512 || bps == 4096
  {
    x % bps == 0
  }

  /** What the map relies on: whole sectors, and regions inside the volume that do not meet. */
  ghost predicate WellFormed(l: Layout) {
    && (l.bps == 512 || l.bps == 4096) && |l.metadata| == 3
    && Aligned(l.volumeSize, l.bps) && Aligned(l.encryptedSize, l.bps) && l.encryptedSize <= l.volumeSize
    && 0 < l.relocLen && Aligned(l.relocLen, l.bps) && Aligned(l.relocOffset, l.bps)
    && (forall i :: 0 <= i < 3 ==> l.metadata[i] > 0 && Aligned(l.metadata[i], l.bps))
    && (l.extra.Some? ==> l.extra.value > 0 && Aligned(l.extra.value, l.bps))
    && AllApart(Regions(l), l.volumeSize)
  }

  // ---- Layout::new ---------------------------------------------------------

  /** The parts of the volume header and of the FVE metadata that Layout::new reads. */
  datatype Parsed = Parsed(eow: bool, bps: u64, metadata: seq<u64>, headerOffset: u64, headerSectors: nat, volumeHeader: Region,
                           extra: Option<Region>, encryptedSize: u64, current: int, next: int, conversionSize: u64, cipherKnown: bool)

  datatype Result = Ok(layout: Layout) | Err(error: Fault)

  datatype Fault = UsedSpaceOnly | SectorSize | MetadataOffset | Relocation | ExtraRegion | Overlap | EncryptedSize | State | UnsupportedCipher

  // FVE states (crates/paguro-core/src/bde.rs, mod state)
  const STATE_ENCRYPTED := 4
  const STATE_SWITCHING := 2
  const STATE_PAUSED := 5

  /** The layout a header and its metadata describe, on a volume of that many bytes. */
  function Described(p: Parsed, size: u64): Layout
    requires p.bps == 512 || p.bps == 4096
  {
    var whole := size - size % p.bps;
    Layout(p.bps, whole, p.metadata, p.volumeHeader.len, p.volumeHeader.off,
           if p.extra.Some? then Some(p.extra.value.off) else None, p.encryptedSize, p.encryptedSize < whole)
  }

  predicate StateFits(p: Parsed) {
    p.next == STATE_ENCRYPTED &&
    (p.current == STATE_ENCRYPTED || ((p.current == STATE_SWITCHING || p.current == STATE_PAUSED) && p.conversionSize == 0))
  }

  /** Layout::new accepts exactly this. */
  ghost predicate Acceptable(p: Parsed, size: u64) {
    && !p.eow && (p.bps == 512 || p.bps == 4096) && |p.metadata| == 3
    && p.volumeHeader.off == p.headerOffset && p.volumeHeader.len == p.headerSectors * p.bps
    && (p.extra.Some? ==> p.extra.value.len == REGION_SIZE)
    && WellFormed(Described(p, size))
    && StateFits(p) && p.cipherKnown
  }

  /** What is never accepted: used-space-only encryption, an unknown cipher, a conversion under way. */
  lemma {:induction false} AcceptedStates(p: Parsed, size: u64)
    requires Acceptable(p, size)
    ensures !p.eow && p.cipherKnown && p.next == 4
    ensures p.current == 4 || ((p.current == 2 || p.current == 5) && p.conversionSize == 0)
  {
  }

  /** The nested loops of Layout::new: every region in the volume, no two non-empty ones meeting. */
  method CheckRegions(rs: seq<Region>, size: u64) returns (e: Option<Fault>)
    ensures e == None <==> AllApart(rs, size)
  {
    var i := 0;
    while i < |rs|
      invariant 0 <= i <= |rs|
      invariant forall k :: 0 <= k < i ==> rs[k].off + rs[k].len <= size
      invariant forall k, j :: 0 <= k < i && k < j < |rs| ==> Clear(rs[k], rs[j])
    {
      var a := rs[i];
      if a.off + a.len >= TWO64 || a.off + a.len > size {
        return Some(if i < 2 then Relocation else MetadataOffset);
      }
      var j := i + 1;
      while j < |rs|
        invariant i < j <= |rs|
        invariant forall m :: i < m < j ==> Clear(a, rs[m])
      {
        if !Clear(a, rs[j]) {
          ClearApart(a, rs[j], size);
          return Some(Overlap);
        }
        j := j + 1;
      }
      i := i + 1;
    }
    forall k, j | 0 <= k < j < |rs| ensures Apart(rs[k], rs[j]) {
      ClearApart(rs[k], rs[j], size);
    }
    e := None;
  }

  function Saturate(a: u64, b: u64): u64 {
    if a + b < TWO64 then a + b else TWO64 - 1
  }

  /** The overlap test as coded, with saturating ends. */
  predicate Clear(a: Region, b: Region) {
    !(a.len != 0 && b.len != 0 && a.off < Saturate(b.off, b.len) && b.off < Saturate(a.off, a.len))
  }

  lemma {:induction false} ClearApart(a: Region, b: Region, size: u64)
    ensures b.off + b.len <= size && a.off + a.len <= size ==> (Clear(a, b) <==> Apart(a, b))
  {
  }

  method CheckExtra(x: Option<Region>, bps: u64, size: u64) returns (ok: bool)
    requires bps == 512 || bps == 4096
    ensures ok <==> x.None? || (x.value.len == REGION_SIZE && x.value.off > 0 && Aligned(x.value.off, bps) && x.value.off + x.value.len <= size)
  {
    if x.None? {
      return true;
    }
    var inside := x.value.off + x.value.len < TWO64 && x.value.off + x.value.len <= size;
    ok := !(x.value.len != REGION_SIZE || x.value.off == 0 || x.value.off % bps != 0 || !inside);
  }

  /** Layout::new. */
  method NewLayout(p: Parsed, size: u64) returns (r: Result)
    requires |p.metadata| == 3
    ensures r.Ok? <==> Acceptable(p, size)
    ensures r.Ok? ==> r.layout == Described(p, size)
  {
    if p.eow {
      return Err(UsedSpaceOnly);
    }
    if p.bps != 512 && p.bps != 4096 {
      return Err(SectorSize);
    }
    for i := 0 to 3
      invariant forall j :: 0 <= j < i ==> p.metadata[j] > 0 && Aligned(p.metadata[j], p.bps)
    {
      if p.metadata[i] == 0 || p.metadata[i] % p.bps != 0 {
        return Err(MetadataOffset);
      }
    }
    var l := Described(p, size);
    if l.relocOffset != p.headerOffset || p.headerSectors * p.bps >= TWO64 || l.relocLen != p.headerSectors * p.bps
       || l.relocLen == 0 || l.relocOffset % p.bps != 0 {
      return Err(Relocation);
    }
    WholeSectors(p.headerSectors, p.bps, size);
    var ok := CheckExtra(p.extra, p.bps, l.volumeSize);
    if !ok {
      assert Regions(l)[5].off + Regions(l)[5].len <= l.volumeSize || !WellFormed(l);
      return Err(ExtraRegion);
    }
    var e := CheckRegions(Regions(l), l.volumeSize);
    if e.Some? {
      return Err(e.value);
    }
    if p.encryptedSize > l.volumeSize || p.encryptedSize % p.bps != 0 {
      return Err(EncryptedSize);
    }
    if !StateFits(p) {
      return Err(State);
    }
    if !p.cipherKnown {
      return Err(UnsupportedCipher);
    }
    r := Ok(l);
  }

  lemma {:induction false} WholeSectors(n: nat, bps: u64, size: u64)
    requires bps == 512 || bps == 4096
    ensures Aligned(n * bps, bps) && Aligned(size - size % bps, bps)
  {
    if bps == 4096 {
      assert n * bps == 4096 * n;
    } else {
      assert n * bps == 512 * n;
    }
  }

  // ---- the pointwise view --------------------------------------------------

  /** Where a unit of the view comes from. */
  datatype Source = Disk(unit: int, encrypted: bool) | Zero

  predicate IsHidden(l: Layout, off: int)
    requires |l.metadata| == 3
  {
    exists i :: 0 <= i < 4 && Inside(Hidden(l)[i], off)
  }

  /** The byte offset a view offset is read from, outside the hidden regions. */
  function Physical(l: Layout, off: int): int {
    if off < l.relocLen then l.relocOffset + off else off
  }

  /** The source of the unit at byte offset `off`. */
  function SourceAt(l: Layout, off: nat): Source
    requires |l.metadata| == 3 && l.bps > 0
  {
    if l.relocLen <= off && IsHidden(l, off) then Zero
    else Disk(Physical(l, off) / l.bps, Physical(l, off) < l.encryptedSize)
  }

  function ViewSource(l: Layout, unit: nat): Option<Source>
    requires |l.metadata| == 3 && l.bps > 0
  {
    if unit * l.bps >= l.volumeSize then None else Some(SourceAt(l, unit * l.bps))
  }

  /** The same kind of source, k units further. */
  function Onward(s: Source, k: int): Source {
    match s
    case Disk(unit, encrypted) => Disk(unit + k, encrypted)
    case Zero => Zero
  }

  // ---- Layout::map ---------------------------------------------------------

  /** Units of the volume run up to a whole boundary. */
  lemma {:induction false} UnitRun(unit: nat, bps: nat, next: nat)
    requires bps == 512 || bps == 4096
    requires unit * bps < next && next % bps == 0
    ensures var run := (next - unit * bps) / bps; run >= 1 && (unit + run) * bps == next
  {
    if bps == 512 {
      assert unit * bps == 512 * unit;
      assert (next - 512 * unit) % 512 == 0;
    } else {
      assert unit * bps == 4096 * unit;
      assert (next - 4096 * unit) % 4096 == 0;
    }
  }

  lemma {:induction false} UnitStep(unit: nat, k: nat, bps: nat, base: nat)
    requires bps > 0 && base % bps == 0
    ensures (base + (unit + k) * bps) / bps == (base + unit * bps) / bps + k
    ensures (base + unit * bps) / bps == base / bps + unit
  {
    DivParts(base, bps);
    TimesPlus(base / bps, unit, bps);
    TimesPlus(base / bps + unit, k, bps);
    TimesPlus(unit, k, bps);
    DivOf(base + unit * bps, base / bps + unit, bps);
    DivOf(base + (unit + k) * bps, base / bps + unit + k, bps);
  }

  /** Every aligned offset from `off` below `next` has a source of the same kind. */
  ghost predicate Steady(l: Layout, off: nat, next: int)
    requires |l.metadata| == 3
  {
    forall o :: off <= o < next ==>
      && (o < l.relocLen <==> off < l.relocLen)
      && (l.relocLen <= o ==> (IsHidden(l, o) <==> IsHidden(l, off)))
      && (o < l.relocLen || !IsHidden(l, o) ==> (Physical(l, o) < l.encryptedSize <==> Physical(l, off) < l.encryptedSize))
  }

  /** A run maps unit by unit, in step, and ends inside the volume. */
  ghost predicate InStep(l: Layout, unit: nat, src: Source, run: int)
    requires |l.metadata| == 3 && l.bps > 0
  {
    && run >= 1 && (unit + run) * l.bps <= l.volumeSize
    && forall k: nat :: k < run ==> ViewSource(l, unit + k) == Some(Onward(src, k))
  }

  lemma {:induction false} SteadyInStep(l: Layout, unit: nat, next: nat)
    requires WellFormed(l) && unit * l.bps < next <= l.volumeSize && Aligned(next, l.bps) && Steady(l, unit * l.bps, next)
    ensures InStep(l, unit, SourceAt(l, unit * l.bps), (next - unit * l.bps) / l.bps)
  {
    var off, bps := unit * l.bps, l.bps;
    var run := (next - off) / bps;
    UnitRun(unit, bps, next);
    forall k: nat | k < run ensures ViewSource(l, unit + k) == Some(Onward(SourceAt(l, off), k)) {
      MulMono(unit + k + 1, unit + run, bps);
      TimesPlus(unit + k, 1, bps);
      MulMono(unit, unit + k, bps);
      SteadyUnit(l, unit, k, next);
    }
  }

  lemma {:induction false} SteadyUnit(l: Layout, unit: nat, k: nat, next: nat)
    requires |l.metadata| == 3 && l.bps > 0 && l.relocOffset % l.bps == 0 && Steady(l, unit * l.bps, next)
    requires unit * l.bps <= (unit + k) * l.bps < next <= l.volumeSize
    ensures ViewSource(l, unit + k) == Some(Onward(SourceAt(l, unit * l.bps), k))
  {
    UnitStep(unit, k, l.bps, l.relocOffset);
    UnitStep(unit, k, l.bps, 0);
  }

  /** The `bound` closure: the nearest boundary past off. */
  function Bound(next: u64, off: u64, b: u64): (n: u64)
    ensures n <= next && (off < next ==> off < n) && (b > off ==> n <= b) && (n == next || n == b)
  {
    if b > off && b < next then b else next
  }

  /** The pointwise source, and a run that continues it in step. */
  ghost predicate Answers(l: Layout, unit: nat, src: Source, run: int)
    requires |l.metadata| == 3 && l.bps > 0
  {
    Some(src) == ViewSource(l, unit) && InStep(l, unit, src, run)
  }

  lemma {:induction false} SteadyAnswers(l: Layout, unit: nat, off: nat, next: nat, src: Source)
    requires WellFormed(l) && off == unit * l.bps && off < next <= l.volumeSize && Aligned(next, l.bps) && Steady(l, off, next)
    requires src == SourceAt(l, off)
    ensures Answers(l, unit, src, (next - off) / l.bps)
  {
    SteadyInStep(l, unit, next);
  }

  /** The relocated boot sectors. */
  method MapRelocated(l: Layout, unit: u64, off: u64) returns (src: Source, run: u64)
    requires WellFormed(l) && off == unit * l.bps && off < l.relocLen
    ensures Answers(l, unit, src, run)
  {
    var next := RelocatedNext(l, off);
    src := Disk((l.relocOffset + off) / l.bps, l.relocOffset + off < l.encryptedSize);
    SteadyAnswers(l, unit, off, next, src);
    run := RunLength(off, next, l.bps);
  }

  /** Everything behind them. */
  method MapRest(l: Layout, unit: u64, off: u64) returns (src: Source, run: u64)
    requires WellFormed(l) && off == unit * l.bps && l.relocLen <= off < l.volumeSize
    ensures Answers(l, unit, src, run)
  {
    var hidden, next := HiddenNext(l, off);
    UnitStep(unit, 0, l.bps, 0);
    src := if hidden then Zero else Disk(unit, off < l.encryptedSize);
    SteadyAnswers(l, unit, off, next, src);
    run := RunLength(off, next, l.bps);
  }

  function RunLength(off: u64, next: u64, bps: u64): (n: u64)
    requires off < next && bps > 0
    ensures n == (next - off) / bps
  {
    DivParts(next - off, bps);
    (next - off) / bps
  }

  /** Layout::map: the source of a unit and how far it continues in step, refining the pointwise view. */
  method Map(l: Layout, unit: u64) returns (r: Option<(Source, u64)>)
    requires WellFormed(l)
    ensures r.Some? <==> ViewSource(l, unit).Some?
    ensures r.Some? ==> Some(r.value.0) == ViewSource(l, unit) && InStep(l, unit, r.value.0, r.value.1)
    ensures r.Some? ==> RightlyEncrypted(l, r.value.0, r.value.1)
  {
    if unit * l.bps >= TWO64 || unit * l.bps >= l.volumeSize {
      return None;
    }
    var off: u64 := unit * l.bps;
    var src, run;
    if off < l.relocLen {
      src, run := MapRelocated(l, unit, off);
    } else {
      src, run := MapRest(l, unit, off);
    }
    RunEncrypted(l, unit, src, run);
    r := Some((src, run));
  }

  /** Physical unit p starts below the encrypted size: what it holds is ciphertext. */
  predicate Ciphered(l: Layout, p: int) {
    p * l.bps < l.encryptedSize
  }

  /** Every physical unit of a run is ciphertext, or none is, as the flag says. */
  ghost predicate RightlyEncrypted(l: Layout, src: Source, run: int) {
    src.Disk? ==> forall p :: src.unit <= p < src.unit + run ==> (src.encrypted <==> Ciphered(l, p))
  }

  /** The flag of a unit says what its physical unit holds. */
  lemma {:induction false} EncryptedExact(l: Layout, unit: nat)
    requires WellFormed(l) && ViewSource(l, unit).Some? && ViewSource(l, unit).value.Disk?
    ensures ViewSource(l, unit).value.encrypted <==> ViewSource(l, unit).value.unit * l.bps < l.encryptedSize
  {
    DiskSource(l, unit);
  }

  lemma {:induction false} RunEncrypted(l: Layout, unit: nat, src: Source, run: int)
    requires WellFormed(l) && InStep(l, unit, src, run)
    ensures RightlyEncrypted(l, src, run)
  {
    if src.Disk? {
      forall p | src.unit <= p < src.unit + run ensures src.encrypted <==> Ciphered(l, p) {
        var k := p - src.unit;
        assert ViewSource(l, unit + k) == Some(Onward(src, k));
        EncryptedExact(l, unit + k);
      }
    }
  }

  lemma {:induction false} RegionAt(l: Layout, i: nat)
    requires WellFormed(l) && i < 6
    ensures Regions(l)[i].off + Regions(l)[i].len <= l.volumeSize
    ensures Aligned(Regions(l)[i].off, l.bps) && Aligned(Regions(l)[i].len, l.bps)
    ensures i < 4 ==> Regions(l)[i + 1] == Hidden(l)[i]
  {
  }

  /** The boundaries inside the relocated boot sectors. */
  method RelocatedNext(l: Layout, off: u64) returns (next: u64)
    requires WellFormed(l) && off < l.relocLen
    ensures off < next <= l.volumeSize && Aligned(next, l.bps) && Steady(l, off, next)
    ensures l.relocOffset + off < TWO64
  {
    RegionAt(l, 0);
    RegionAt(l, 1);
    var rest: u64 := if l.encryptedSize > l.relocOffset then l.encryptedSize - l.relocOffset else 0;
    next := Bound(Bound(l.volumeSize, off, l.relocLen), off, rest);
    AlignedDifference(l.encryptedSize, l.relocOffset, l.bps);
  }

  lemma {:induction false} AlignedDifference(a: int, b: int, bps: int)
    requires (bps == 512 || bps == 4096) && Aligned(a, bps) && Aligned(b, bps)
    ensures Aligned(a - b, bps) && Aligned(a + b, bps)
  {
    var p, q := a / bps, b / bps;
    if bps == 512 {
      Multiple512(p - q);
      Multiple512(p + q);
    } else {
      Multiple4096(p - q);
      Multiple4096(p + q);
    }
  }

  lemma {:induction false} Multiple512(k: int)
    ensures 512 * k % 512 == 0
  {
  }

  lemma {:induction false} Multiple4096(k: int)
    ensures 4096 * k % 4096 == 0
  {
  }

  /** The hidden-region loop: in one of them, or the boundaries of all that lie ahead. */
  method HiddenNext(l: Layout, off: u64) returns (hidden: bool, next: u64)
    requires WellFormed(l) && l.relocLen <= off < l.volumeSize
    ensures hidden <==> IsHidden(l, off)
    ensures off < next <= l.volumeSize && Aligned(next, l.bps) && Steady(l, off, next)
  {
    var hs := Hidden(l);
    next := l.volumeSize;
    for i := 0 to 4
      invariant off < next <= l.volumeSize && Aligned(next, l.bps)
      invariant forall j :: 0 <= j < i ==> hs[j].off + hs[j].len <= off || next <= hs[j].off
    {
      RegionAt(l, i);
      RegionAt(l, i + 1);
      assert hs[i].off + hs[i].len <= l.volumeSize;
      AlignedDifference(hs[i].off, hs[i].len, l.bps);
      if hs[i].off <= off && off < hs[i].off + hs[i].len {
        next := Bound(next, off, hs[i].off + hs[i].len);
        assert forall o :: off <= o < next ==> Inside(hs[i], o);
        return true, next;
      }
      next := Bound(next, off, hs[i].off);
    }
    assert forall o :: off <= o < next ==> !IsHidden(l, o);
    hidden := false;
    next := Bound(next, off, l.encryptedSize);
  }

  // ---- injective, and the identity on data ---------------------------------

  lemma {:induction false} RegionsApart(l: Layout, i: nat, j: nat, x: int)
    requires WellFormed(l) && i < 6 && j < 6 && i != j && Inside(Regions(l)[i], x)
    ensures !Inside(Regions(l)[j], x)
  {
    var rs := Regions(l);
    assert Apart(rs[if i < j then i else j], rs[if i < j then j else i]);
  }

  /** A disk source is read from inside the volume, in whole units, outside the original boot-sector
      area and every metadata region. */
  lemma {:induction false} DiskSource(l: Layout, unit: nat)
    requires WellFormed(l) && ViewSource(l, unit).Some? && ViewSource(l, unit).value.Disk?
    ensures var p := ViewSource(l, unit).value.unit * l.bps;
            && p == Physical(l, unit * l.bps) && p < l.volumeSize
            && l.relocLen <= p
            && forall i :: 0 <= i < 3 ==> !Inside(Region(l.metadata[i], REGION_SIZE), p)
  {
    var off := unit * l.bps;
    var rs, p := Regions(l), Physical(l, off);
    UnitStep(unit, 0, l.bps, l.relocOffset);
    UnitStep(unit, 0, l.bps, 0);
    assert p / l.bps * l.bps == p by {
      PhysicalAligned(l, unit);
      DivParts(p, l.bps);
    }
    RegionAt(l, 1);
    if off < l.relocLen {
      assert Inside(rs[1], p);
      RegionsApart(l, 1, 0, p);
      forall i | 0 <= i < 3 ensures !Inside(Region(l.metadata[i], REGION_SIZE), p) {
        RegionsApart(l, 1, i + 2, p);
      }
    } else {
      forall i | 0 <= i < 3 ensures !Inside(Region(l.metadata[i], REGION_SIZE), p) {
        assert Hidden(l)[i + 1] == Region(l.metadata[i], REGION_SIZE);
      }
    }
  }

  lemma {:induction false} PhysicalAligned(l: Layout, unit: nat)
    requires WellFormed(l)
    ensures Physical(l, unit * l.bps) % l.bps == 0
  {
    WholeSectors(unit, l.bps, 0);
    AlignedDifference(l.relocOffset, unit * l.bps, l.bps);
  }

  /** Two different units of the view are never read from the same physical unit. */
  lemma {:induction false} Injective(l: Layout, u: nat, v: nat)
    requires WellFormed(l) && u != v
    requires ViewSource(l, u).Some? && ViewSource(l, u).value.Disk? && ViewSource(l, v).Some? && ViewSource(l, v).value.Disk?
    ensures ViewSource(l, u).value.unit != ViewSource(l, v).value.unit
  {
    DiskSource(l, u);
    DiskSource(l, v);
    var a, b := u * l.bps, v * l.bps;
    if Physical(l, a) == Physical(l, b) {
      if a < l.relocLen && l.relocLen <= b {
        assert Inside(Hidden(l)[0], b);
      }
      if b < l.relocLen && l.relocLen <= a {
        assert Inside(Hidden(l)[0], a);
      }
    }
  }

  /** reserved_ranges: the non-data regions in 512-byte sectors. */
  function ReservedRanges(l: Layout): seq<Extent>
    requires |l.metadata| == 3
  {
    [ToSectors(Region(0, l.relocLen)), ToSectors(Region(l.relocOffset, l.relocLen)), ToSectors(Region(l.metadata[0], REGION_SIZE)),
     ToSectors(Region(l.metadata[1], REGION_SIZE)), ToSectors(Region(l.metadata[2], REGION_SIZE))]
    + if l.extra.Some? then [ToSectors(Region(l.extra.value, REGION_SIZE))] else []
  }

  function ToSectors(r: Region): Extent {
    Extent(r.off / 512, r.off / 512 + r.len / 512)
  }

  /** They are exactly the sectors of the six regions, byte by byte. */
  lemma {:induction false} ReservedExact(l: Layout, x: nat)
    requires WellFormed(l)
    ensures Covers(ReservedRanges(l), x) <==> exists i :: 0 <= i < 6 && Regions(l)[i].off <= x * 512 < Regions(l)[i].off + Regions(l)[i].len
  {
    var rs, es := Regions(l), ReservedRanges(l);
    forall i | 0 <= i < 6 ensures In(ToSectors(rs[i]), x) <==> rs[i].off <= x * 512 < rs[i].off + rs[i].len {
      RegionAt(l, i);
      Sector512(rs[i].off, l.bps);
      Sector512(rs[i].len, l.bps);
    }
    forall i | 0 <= i < |es| ensures es[i] == ToSectors(rs[i]) {
    }
    if i :| 0 <= i < 6 && rs[i].off <= x * 512 < rs[i].off + rs[i].len {
      assert i < |es| && In(es[i], x);
    }
    if i :| 0 <= i < |es| && In(es[i], x) {
      assert rs[i].off <= x * 512 < rs[i].off + rs[i].len;
    }
  }

  /** Where a 512-byte sector of the view is read from. */
  function SectorSource(l: Layout, x: nat): Option<int>
    requires |l.metadata| == 3 && l.bps > 0
  {
    match ViewSource(l, x * 512 / l.bps)
    case None => None
    case Some(Zero) => None
    case Some(Disk(unit, encrypted)) => Some((unit * l.bps + x * 512 % l.bps) / 512)
  }

  /** The unit holding a sector starts at an aligned offset no more than a unit below it. */
  lemma {:induction false} SectorUnit(l: Layout, x: nat)
    requires WellFormed(l)
    ensures var u := x * 512 / l.bps;
            u * l.bps <= x * 512 < u * l.bps + l.bps && x * 512 % l.bps == x * 512 - u * l.bps
    ensures Aligned(x * 512 / l.bps * l.bps, l.bps)
  {
    DivParts(x * 512, l.bps);
    WholeSectors(x * 512 / l.bps, l.bps, 0);
  }

  /** A region that starts and ends on unit boundaries holds a sector exactly when it holds its unit. */
  lemma {:induction false} UnitInRegion(r: Region, off: int, x: int, bps: int)
    requires (bps == 512 || bps == 4096) && Aligned(r.off, bps) && Aligned(r.len, bps) && Aligned(off, bps)
    requires off <= x * 512 < off + bps
    ensures Inside(r, off) <==> In(ToSectors(r), x)
  {
    if bps == 512 {
      Grain(r.off / 512, r.len / 512, off / 512, x, 1);
    } else {
      var q, m, k := r.off / 4096, r.len / 4096, off / 4096;
      Eighths(r.off);
      Eighths(r.len);
      Eighths(off);
      Grain(q, m, k, x, 8);
    }
  }

  /** Whole units as sectors. */
  lemma {:induction false} Grain(q: int, m: int, k: int, x: int, g: int)
    requires (g == 1 || g == 8) && g * k <= x < g * k + g
    ensures q <= k < q + m <==> g * q <= x < g * q + g * m
  {
  }

  lemma {:induction false} Eighths(a: int)
    requires a % 4096 == 0
    ensures a / 512 == 8 * (a / 4096) && a == 4096 * (a / 4096)
  {
    assert a == 512 * (8 * (a / 4096));
  }

  lemma {:induction false} Sector512(a: int, bps: int)
    requires (bps == 512 || bps == 4096) && Aligned(a, bps)
    ensures a % 512 == 0
  {
    if bps == 4096 {
      Eighths(a);
    }
  }

  /** The regions whose sectors the view does not pass through: the boot-sector area and the hidden ones. */
  ghost predicate Moved(l: Layout, x: int)
    requires |l.metadata| == 3
  {
    exists i :: 0 <= i < 5 && In(ToSectors(Regions(l)[i]), x)
  }

  lemma {:induction false} MovedExact(l: Layout, off: int, x: nat)
    requires WellFormed(l) && Aligned(off, l.bps) && 0 <= off <= x * 512 < off + l.bps
    ensures Moved(l, x) <==> off < l.relocLen || IsHidden(l, off)
  {
    var rs := Regions(l);
    forall i | 0 <= i < 5 ensures Inside(rs[i], off) <==> In(ToSectors(rs[i]), x) {
      RegionAt(l, i);
      UnitInRegion(rs[i], off, x, l.bps);
    }
    forall i | 0 <= i < 4 ensures Hidden(l)[i] == rs[i + 1] {
      RegionAt(l, i);
    }
    if off < l.relocLen {
      assert Inside(rs[0], off);
    }
    if IsHidden(l, off) {
      var i :| 0 <= i < 4 && Inside(Hidden(l)[i], off);
      assert In(ToSectors(rs[i + 1]), x);
    }
    if Moved(l, x) && l.relocLen <= off {
      var i :| 0 <= i < 5 && In(ToSectors(rs[i]), x);
      assert Inside(Hidden(l)[i - 1], off);
    }
  }

  lemma {:induction false} SectorInUnit(p: int, off: int, x: int, bps: int)
    requires (bps == 512 || bps == 4096) && Aligned(p, bps) && Aligned(off, bps) && off <= x * 512 < off + bps
    ensures (p + (x * 512 - off)) / 512 == x <==> p == off
  {
    Sector512(p, bps);
    Sector512(off, bps);
    assert p == 512 * (p / 512) && off == 512 * (off / 512);
    assert p + (x * 512 - off) == 512 * (p / 512 + x - off / 512);
  }

  /** The view reads a sector of the volume from itself exactly outside those regions. */
  lemma {:induction false} IdentityExact(l: Layout, x: nat)
    requires WellFormed(l) && x * 512 < l.volumeSize
    ensures SectorSource(l, x) == Some(x as int) <==> !Moved(l, x)
  {
    SectorUnit(l, x);
    var off := x * 512 / l.bps * l.bps;
    MovedExact(l, off, x);
    SectorValue(l, x, off);
    if off < l.relocLen {
      RegionsApart(l, 0, 1, off);
    }
  }

  lemma {:induction false} SectorValue(l: Layout, x: nat, off: nat)
    requires WellFormed(l) && x * 512 < l.volumeSize && off == x * 512 / l.bps * l.bps
    ensures SectorSource(l, x) == Some(x as int) <==> !(l.relocLen <= off && IsHidden(l, off)) && Physical(l, off) == off
  {
    SectorUnit(l, x);
    var u := x * 512 / l.bps;
    if !(l.relocLen <= off && IsHidden(l, off)) {
      DiskSource(l, u);
      PhysicalAligned(l, u);
      SectorInUnit(Physical(l, off), off, x, l.bps);
    }
  }

  /** Outside the reserved ranges every sector is read from itself. */
  lemma {:induction false} IdentityOnData(l: Layout, x: nat)
    requires WellFormed(l) && x * 512 < l.volumeSize && !Covers(ReservedRanges(l), x)
    ensures SectorSource(l, x) == Some(x as int)
  {
    MovedReserved(l, x);
    IdentityExact(l, x);
  }

  lemma {:induction false} MovedReserved(l: Layout, x: int)
    requires |l.metadata| == 3
    ensures Moved(l, x) ==> Covers(ReservedRanges(l), x)
  {
    if Moved(l, x) {
      var i :| 0 <= i < 5 && In(ToSectors(Regions(l)[i]), x);
      assert In(ReservedRanges(l)[i], x);
    }
  }

  lemma {:induction false} SectorSourceUnit(l: Layout, x: nat)
    requires WellFormed(l) && SectorSource(l, x).Some?
    ensures var u := x * 512 / l.bps;
            && ViewSource(l, u).Some? && ViewSource(l, u).value.Disk?
            && SectorSource(l, x).value * 512 / l.bps == ViewSource(l, u).value.unit
            && SectorSource(l, x).value * 512 % l.bps == x * 512 % l.bps
  {
    SectorUnit(l, x);
    var u, r := x * 512 / l.bps, x * 512 % l.bps;
    DiskSource(l, u);
    PhysicalAligned(l, u);
    SectorRemainder(x, l.bps);
    SectorOfUnit(ViewSource(l, u).value.unit, r, l.bps);
  }

  lemma {:induction false} SectorOfUnit(unit: int, r: int, bps: int)
    requires (bps == 512 || bps == 4096) && unit * bps >= 0 && Aligned(unit * bps, bps) && 0 <= r < bps && r % 512 == 0
    ensures var x := (unit * bps + r) / 512; x * 512 / bps == unit && x * 512 % bps == r
  {
    SectorBytes(unit * bps, r, bps);
    DivOf(unit * bps + r, unit, bps);
  }

  lemma {:induction false} SectorRemainder(x: nat, bps: int)
    requires bps == 512 || bps == 4096
    ensures x * 512 % bps % 512 == 0
  {
  }

  lemma {:induction false} SectorBytes(p: int, r: int, bps: int)
    requires (bps == 512 || bps == 4096) && Aligned(p, bps) && r % 512 == 0
    ensures (p + r) / 512 * 512 == p + r
  {
    Sector512(p, bps);
    assert p + r == 512 * (p / 512 + r / 512);
  }

  /** No physical sector shows up twice in the view. */
  lemma {:induction false} SectorsInjective(l: Layout, x: nat, y: nat)
    requires WellFormed(l) && SectorSource(l, x).Some? && SectorSource(l, x) == SectorSource(l, y)
    ensures x == y
  {
    SectorSourceUnit(l, x);
    SectorSourceUnit(l, y);
    var u, v := x * 512 / l.bps, y * 512 / l.bps;
    if u != v {
      Injective(l, u, v);
    }
    SectorUnit(l, x);
    SectorUnit(l, y);
  }

  /** Protecting a plaintext sector outside the reserved ranges protects the same sector of the
      ciphertext, and no other plaintext sector. */
  lemma {:induction false} ProtectedTogether(l: Layout, x: nat, y: nat)
    requires WellFormed(l) && x * 512 < l.volumeSize && !Covers(ReservedRanges(l), x)
    ensures SectorSource(l, y) == Some(x as int) <==> y == x
  {
    IdentityOnData(l, x);
    if SectorSource(l, y) == Some(x as int) {
      SectorsInjective(l, x, y);
    }
  }

  // ---- overlaps_reserved ---------------------------------------------------

  lemma {:induction false} ReservedNonEmpty(l: Layout)
    requires WellFormed(l)
    ensures AllNonEmpty(ReservedRanges(l))
  {
    RegionNonEmpty(Region(0, l.relocLen), l.bps);
    RegionNonEmpty(Region(l.relocOffset, l.relocLen), l.bps);
  }

  lemma {:induction false} RegionNonEmpty(r: Region, bps: int)
    requires (bps == 512 || bps == 4096) && r.len > 0 && Aligned(r.len, bps)
    ensures NonEmpty(ToSectors(r))
  {
  }

  /** overlaps_reserved: whether an extent meets a reserved range. */
  method OverlapsReserved(l: Layout, es: seq<Extent>) returns (hit: bool)
    requires WellFormed(l)
    ensures AllNonEmpty(es) ==> (hit <==> Share(ReservedRanges(l), es))
    ensures hit <==> exists i, j :: 0 <= i < |ReservedRanges(l)| && 0 <= j < |es| && Meet(ReservedRanges(l)[i], es[j])
  {
    var rs := ReservedRanges(l);
    ReservedNonEmpty(l);
    if AllNonEmpty(es) {
      Claim.ShareMeet(rs, es);
    }
    var i := 0;
    while i < |rs|
      invariant 0 <= i <= |rs|
      invariant forall p, q :: 0 <= p < i && 0 <= q < |es| ==> !Meet(rs[p], es[q])
    {
      var j := 0;
      while j < |es|
        invariant 0 <= j <= |es|
        invariant forall q :: 0 <= q < j ==> !Meet(rs[i], es[q])
      {
        if es[j].start < rs[i].end && rs[i].start < es[j].end {
          assert Meet(rs[i], es[j]);
          return true;
        }
        j := j + 1;
      }
      i := i + 1;
    }
    hit := false;
  }
}
