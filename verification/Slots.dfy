/** The module's own state (kernel/dm-paguro/pg_ctl.h): slots of extent lists, what they mean as
    states of the abstract machine, and the decisions pg_ctl.c takes by scanning them. */
module Slots {
  import opened Words
  import opened Extents
  import opened Views
  import Claim
  import Range
  import Derivation

  /** struct pg_volume; a free slot has id 0. */
  datatype VolumeSlot =
    | NoVolume
    | VolumeSlot(raw: int, plain: int, dirty: bool, addedReadOnly: bool, shape: Shape, reserved: seq<Extent>,
                 view: View, viewTables: int, guardHits: int, readaheadHits: int)

  /** struct pg_claim_state, with PG_CLAIM_READONLY, _CHECKED and _REFUSED spelt out. */
  datatype ClaimSlot =
    | NoClaim
    | ClaimSlot(vol: int, rec: u64, seqNo: nat, format: int, readonly: bool, checked: bool, refused: bool,
                limit: u64, file: seq<Extent>, norm: seq<Extent>, imageTables: int, refusals: int)

  ghost function VolumeOf(v: VolumeSlot): Volume {
    match v
    case NoVolume => FreeVolume
    case VolumeSlot(raw, plain, dirty, ro, shape, reserved, view, n, guard, ahead) =>
      Volume(raw, plain, dirty, ro, shape, Of(reserved), view, n, guard, ahead)
  }

  ghost function ClaimOf(c: ClaimSlot): ClaimState {
    match c
    case NoClaim => FreeClaim
    case ClaimSlot(vol, rec, seqNo, format, ro, ck, rf, limit, file, norm, n, k) =>
      Live(vol, rec, seqNo, format, ro, ck, rf, limit, Sectors(file), n, k)
  }

  ghost function VolumesOf(vs: seq<VolumeSlot>): (r: seq<Volume>)
    ensures |r| == |vs| && forall i :: 0 <= i < |vs| ==> r[i] == VolumeOf(vs[i])
  {
    seq(|vs|, i requires 0 <= i < |vs| => VolumeOf(vs[i]))
  }

  ghost function ClaimsOf(cs: seq<ClaimSlot>): (r: seq<ClaimState>)
    ensures |r| == |cs| && forall i :: 0 <= i < |cs| ==> r[i] == ClaimOf(cs[i])
  {
    seq(|cs|, i requires 0 <= i < |cs| => ClaimOf(cs[i]))
  }

  ghost function Abstract(vs: seq<VolumeSlot>, cs: seq<ClaimSlot>, images: map<nat, Image>, views: map<nat, Table>): State {
    State(VolumesOf(vs), ClaimsOf(cs), images, views)
  }

  lemma {:induction false} VolumesOfUpdate(vs: seq<VolumeSlot>, i: nat, v: VolumeSlot)
    requires i < |vs|
    ensures VolumesOf(vs[i := v]) == VolumesOf(vs)[i := VolumeOf(v)]
  {
  }

  lemma {:induction false} ClaimsOfUpdate(cs: seq<ClaimSlot>, i: nat, c: ClaimSlot)
    requires i < |cs|
    ensures ClaimsOf(cs[i := c]) == ClaimsOf(cs)[i := ClaimOf(c)]
  {
  }

  ghost predicate VolumeFits(v: VolumeSlot) {
    v.VolumeSlot? ==> Normalised(v.reserved)
  }

  ghost predicate ClaimFits(c: ClaimSlot) {
    c.ClaimSlot? ==> Derivation.Usable(c.file, c.norm) && LimitFits(c.format, c.limit, c.file)
  }

  /** The limit, with a VHD's footer, lies in the file. */
  ghost predicate LimitFits(format: int, limit: u64, file: seq<Extent>) {
    0 < limit <= TWO64 / 512 && limit + (if format == FORMAT_VHD then 1 else 0) <= |Sectors(file)|
  }

  /** The slots' lists are in the forms the fast tests need. */
  ghost predicate SlotsFit(vs: seq<VolumeSlot>, cs: seq<ClaimSlot>) {
    && |vs| == MAX_VOLUMES && |cs| == MAX_CLAIMS
    && (forall i :: 0 <= i < |vs| ==> VolumeFits(vs[i]))
    && (forall i :: 0 <= i < |cs| ==> ClaimFits(cs[i]))
  }

  // ---- lists against sectors -----------------------------------------------

  lemma {:induction false} TouchesShare(file: seq<Extent>, norm: seq<Extent>, reserved: seq<Extent>)
    requires Derivation.NormOf(file, norm)
    ensures Touches(Sectors(file), Of(reserved)) <==> Share(norm, reserved)
  {
    SectorsMembers(file);
    if Touches(Sectors(file), Of(reserved)) {
      var x :| x in Sectors(file) && x in Of(reserved);
      assert Covers(norm, x) && Covers(reserved, x);
    }
    if Share(norm, reserved) {
      var x :| Covers(norm, x) && Covers(reserved, x);
      assert x in Sectors(file) && x in Of(reserved);
    }
  }

  lemma {:induction false} CommonShare(file: seq<Extent>, norm: seq<Extent>, other: seq<Extent>, otherNorm: seq<Extent>)
    requires Derivation.NormOf(file, norm) && Derivation.NormOf(other, otherNorm)
    ensures Common(Sectors(file), Sectors(other)) <==> Share(norm, otherNorm)
  {
    SectorsMembers(file);
    SectorsMembers(other);
    if Common(Sectors(file), Sectors(other)) {
      var x :| x in Sectors(file) && x in Sectors(other);
      assert Covers(norm, x) && Covers(otherNorm, x);
    }
    if Share(norm, otherNorm) {
      var x :| Covers(norm, x) && Covers(otherNorm, x);
      assert x in Sectors(file) && x in Sectors(other);
    }
  }

  // ---- pg_conflict ---------------------------------------------------------

  /** The other claims of pg_conflict: does one on the volume share a sector? */
  method OtherClaims(cs: seq<ClaimSlot>, vol: int, self: int, file: seq<Extent>, norm: seq<Extent>, ghost s: State) returns (hit: bool)
    requires Derivation.Usable(file, norm) && (forall i :: 0 <= i < |cs| ==> ClaimFits(cs[i])) && s.claims == ClaimsOf(cs)
    ensures hit <==> exists i :: 0 <= i < |s.claims| && Collides(s, vol, self, Sectors(file), i)
  {
    var i := 0;
    while i < |cs|
      invariant 0 <= i <= |cs|
      invariant forall j :: 0 <= j < i ==> !Collides(s, vol, self, Sectors(file), j)
    {
      if cs[i].ClaimSlot? && i != self && cs[i].vol == vol {
        CommonShare(file, norm, cs[i].file, cs[i].norm);
        var shared := Claim.Intersects(norm, cs[i].norm);
        if shared {
          assert Collides(s, vol, self, Sectors(file), i);
          return true;
        }
      }
      i := i + 1;
    }
    hit := false;
  }

  /** pg_conflict decides exactly whether the file may be claimed beside what is there. */
  method FindConflict(vs: seq<VolumeSlot>, cs: seq<ClaimSlot>, vol: int, self: int, file: seq<Extent>, norm: seq<Extent>, ghost s: State)
    returns (err: Error)
    requires SlotsFit(vs, cs) && Derivation.Usable(file, norm) && 0 <= vol < |vs| && vs[vol].VolumeSlot?
    requires s.volumes == VolumesOf(vs) && s.claims == ClaimsOf(cs)
    ensures err == Conflict(s, vol, self, Sectors(file))
  {
    TouchesShare(file, norm, vs[vol].reserved);
    assert VolumeFits(vs[vol]);
    var hit := Claim.Intersects(norm, vs[vol].reserved);
    if hit {
      return Reserved;
    }
    hit := OtherClaims(cs, vol, self, file, norm, s);
    err := if hit then Claimed else NoError;
  }

  // ---- scans of the slots --------------------------------------------------

  /** One pass over the claims: is the file claimed already, and which slot is the first free one? */
  method ScanClaims(cs: seq<ClaimSlot>, vol: int, rec: u64) returns (taken: bool, slot: nat)
    ensures taken <==> exists i :: 0 <= i < |ClaimsOf(cs)| && SameFile(ClaimsOf(cs)[i], vol, rec)
    ensures !taken ==> slot == FirstFreeClaim(ClaimsOf(cs), 0)
  {
    ghost var as_ := ClaimsOf(cs);
    slot := |cs|;
    var i: nat := 0;
    while i < |cs|
      invariant i <= |cs|
      invariant forall j :: 0 <= j < i ==> !SameFile(as_[j], vol, rec)
      invariant if slot < |cs| then slot < i && FirstFreeClaim(as_, 0) == slot else slot == |cs| && FirstFreeClaim(as_, 0) == FirstFreeClaim(as_, i)
    {
      if cs[i].ClaimSlot? && cs[i].vol == vol && cs[i].rec == rec {
        assert SameFile(as_[i], vol, rec);
        return true, slot;
      }
      if cs[i].NoClaim? && slot == |cs| {
        slot := i;
      }
      i := i + 1;
    }
    taken := false;
  }

  method ScanVolumes(vs: seq<VolumeSlot>, a: AddArgs) returns (taken: bool, slot: nat)
    ensures taken <==> exists i :: 0 <= i < |VolumesOf(vs)| && SameDevice(VolumesOf(vs)[i], a)
    ensures !taken ==> slot == FirstFreeVolume(VolumesOf(vs), 0)
  {
    ghost var as_ := VolumesOf(vs);
    slot := |vs|;
    var i: nat := 0;
    while i < |vs|
      invariant i <= |vs|
      invariant forall j :: 0 <= j < i ==> !SameDevice(as_[j], a)
      invariant if slot < |vs| then slot < i && FirstFreeVolume(as_, 0) == slot else slot == |vs| && FirstFreeVolume(as_, 0) == FirstFreeVolume(as_, i)
    {
      if vs[i].VolumeSlot? && (vs[i].raw == a.raw || vs[i].plain == a.plain) {
        assert SameDevice(as_[i], a);
        return true, slot;
      }
      if vs[i].NoVolume? && slot == |vs| {
        slot := i;
      }
      i := i + 1;
    }
    taken := false;
  }

  method AnyClaimOn(cs: seq<ClaimSlot>, id: int) returns (any: bool)
    ensures any <==> exists i :: 0 <= i < |ClaimsOf(cs)| && OnVolume(ClaimsOf(cs)[i], id)
  {
    ghost var as_ := ClaimsOf(cs);
    var i: nat := 0;
    while i < |cs|
      invariant i <= |cs|
      invariant forall j :: 0 <= j < i ==> !OnVolume(as_[j], id)
    {
      if cs[i].ClaimSlot? && cs[i].vol + 1 == id {
        assert OnVolume(as_[i], id);
        return true;
      }
      i := i + 1;
    }
    any := false;
  }

  // ---- reserved ranges -----------------------------------------------------

  lemma {:induction false} ReservedCovers(rs: seq<UserRange>, es: seq<Extent>)
    requires |es| == |rs| && forall i :: 0 <= i < |rs| ==> es[i].start == rs[i].start && es[i].end == rs[i].start + rs[i].len
    ensures forall x :: Covers(es, x) <==> x in ReservedSet(rs)
  {
    forall x ensures Covers(es, x) <==> x in ReservedSet(rs) {
      if Covers(es, x) {
        var i :| 0 <= i < |es| && In(es[i], x);
        assert InRange(rs[i], x);
      }
      if x in ReservedSet(rs) {
        var i :| 0 <= i < |rs| && InRange(rs[i], x);
        assert In(es[i], x);
      }
    }
  }

  /** The reserved ranges of PG_VOLUME_ADD, checked one by one and brought to normal form. */
  method ReserveRanges(rs: seq<UserRange>, sectors: u64) returns (ok: bool, reserved: seq<Extent>)
    requires |rs| <= MAX_RESERVED
    ensures ok <==> forall j :: 0 <= j < |rs| ==> RangeInside(rs[j], sectors)
    ensures ok ==> Normalised(reserved) && Of(reserved) == ReservedSet(rs)
  {
    var e := new Extent[MAX_RESERVED];
    reserved := [];
    var i: nat := 0;
    while i < |rs|
      invariant i <= |rs|
      invariant forall j :: 0 <= j < i ==> RangeInside(rs[j], sectors)
      invariant forall j :: 0 <= j < i ==> e[j].start == rs[j].start && e[j].end == rs[j].start + rs[j].len
    {
      var start, len := rs[i].start, rs[i].len;
      if len == 0 || Add64(start, len) < start || Add64(start, len) > sectors {
        assert !RangeInside(rs[i], sectors);
        return false, [];
      }
      e[i] := Extent(start, start + len);
      i := i + 1;
    }
    ghost var es := e[..|rs|];
    ReservedCovers(rs, es);
    assert forall j :: 0 <= j < |es| ==> RangeInside(rs[j], sectors);
    var k := Range.Normalise(e, |rs|);
    reserved := e[..k];
    ok := true;
    assert AllNonEmpty(es);
    assert k == 0 ==> rs == [];
    assert Of(reserved) == ReservedSet(rs);
  }

  // ---- the cross-check -----------------------------------------------------

  /** The user's ranges as extents. */
  function Listed(rs: seq<UserRange>): (es: seq<Extent>)
    requires forall i :: 0 <= i < |rs| ==> rs[i].start + rs[i].len < TWO64
    ensures |es| == |rs| && forall i :: 0 <= i < |rs| ==> es[i] == Extent(rs[i].start, rs[i].start + rs[i].len)
  {
    seq(|rs|, i requires 0 <= i < |rs| => Extent(rs[i].start, rs[i].start + rs[i].len))
  }

  lemma {:induction false} ListedExpands(rs: seq<UserRange>)
    requires forall i :: 0 <= i < |rs| ==> rs[i].start + rs[i].len < TWO64
    ensures Sectors(Listed(rs)) == Expand(rs)
  {
    if rs != [] {
      ListedExpands(rs[1..]);
      assert Listed(rs)[1..] == Listed(rs[1..]);
    }
  }

  /** A list without empty extents holds n sectors exactly when its sequence is that long. */
  lemma {:induction false} HoldsExact(e: seq<Extent>, n: int)
    requires AllNonEmpty(e)
    ensures Claim.Holds(e, n) <==> n <= |Sectors(e)|
  {
    assert e[..|e|] == e;
    if n <= |Sectors(e)| {
      assert Claim.HoldsIn(e, |e|, n);
    }
    forall m | 0 <= m <= |e| && Claim.HoldsIn(e, m, n) ensures n <= |Sectors(e)| {
      Claim.SectorsMonotone(e, m, |e|);
    }
  }

  /** The loop of pg_crosscheck_ioctl: the user's ranges into e, and whether none wraps. */
  method LoadRanges(rs: seq<UserRange>, e: array<Extent>) returns (ok: bool)
    requires e.Length == |rs|
    modifies e
    ensures ok <==> forall i :: 0 <= i < |rs| ==> rs[i].start + rs[i].len < TWO64
    ensures ok ==> e[..] == Listed(rs)
  {
    ok := true;
    var i: nat := 0;
    while i < |rs|
      invariant i <= |rs|
      invariant ok <==> forall j :: 0 <= j < i ==> rs[j].start + rs[j].len < TWO64
      invariant ok ==> forall j :: 0 <= j < i ==> e[j] == Extent(rs[j].start, rs[j].start + rs[j].len)
    {
      e[i] := Extent(rs[i].start, Add64(rs[i].start, rs[i].len));
      if e[i].end < e[i].start {
        ok := false;
      }
      i := i + 1;
    }
  }

  /** pg_same. */
  method Same(a: seq<Extent>, b: seq<Extent>) returns (same: bool)
    ensures same <==> a == b
  {
    if |a| != |b| {
      return false;
    }
    var i: nat := 0;
    while i < |a|
      invariant i <= |a| && forall j :: 0 <= j < i ==> a[j] == b[j]
    {
      if a[i].start != b[i].start || a[i].end != b[i].end {
        return false;
      }
      i := i + 1;
    }
    same := true;
  }

  /** The user's list cut to n sectors, if every range is well formed and it reaches that far. */
  method CutUser(rs: seq<UserRange>, n: u64) returns (e: seq<Extent>)
    requires n > 0 && rs != []
    ensures e != [] <==> (forall i :: 0 <= i < |rs| ==> WellFormedRange(rs[i])) && n <= |Expand(rs)|
    ensures e != [] ==> Coalesced(e) && Sectors(e) == Expand(rs)[..n]
  {
    var a := new Extent[|rs|];
    var ok := LoadRanges(rs, a);
    if !ok {
      return [];
    }
    ListedExpands(rs);
    assert a[..|rs|] == a[..] == Listed(rs);
    var k := Claim.Coalesce(a, |rs|);
    if k == 0 {
      return [];
    }
    assert forall i :: 0 <= i < |rs| ==> NonEmpty(Listed(rs)[i]);
    HoldsExact(a[..k], n);
    k := Claim.Truncate(a, k, n);
    e := a[..k];
  }

  /** The claim's own list cut to n sectors. */
  method CutFile(file: seq<Extent>, n: u64) returns (f: seq<Extent>)
    requires n > 0 && Coalesced(file) && n <= |Sectors(file)|
    ensures f != [] && Coalesced(f) && Sectors(f) == Sectors(file)[..n]
  {
    var a := new Extent[|file|](i requires 0 <= i < |file| => file[i]);
    assert a[..|file|] == file;
    HoldsExact(file, n);
    var k := Claim.Truncate(a, |file|, n);
    f := a[..k];
  }

  /** The cross-check is exact: it agrees precisely when the first n logical sectors of the two lists
      are the same sequence. */
  method Compare(rs: seq<UserRange>, file: seq<Extent>, n: u64) returns (agree: bool)
    requires n > 0 && rs != [] && Coalesced(file) && n <= |Sectors(file)|
    ensures agree <==> Agrees(rs, Sectors(file), n)
  {
    var f := CutFile(file, n);
    var e := CutUser(rs, n);
    var same := Same(e, f);
    if e != [] && Sectors(e) == Sectors(f) {
      Claim.CoalescedUnique(e, f);
    }
    agree := e != [] && f != [] && same;
  }

  // ---- tables --------------------------------------------------------------

  /** Every split point falls on a logical block of the device. */
  predicate BlockAligned(file: seq<Extent>, per: nat)
    requires per > 0
  {
    forall i :: 0 <= i < |file| ==> file[i].start % per == 0 && file[i].end % per == 0
  }

  predicate PowerOfTwo(n: nat) {
    n == 1 || (n > 0 && n % 2 == 0 && PowerOfTwo(n / 2))
  }

  /** Bitwise and, and or. */
  function And(a: nat, b: nat): nat {
    if a == 0 || b == 0 then 0 else And(a / 2, b / 2) * 2 + if a % 2 == 1 && b % 2 == 1 then 1 else 0
  }

  function Or(a: nat, b: nat): nat {
    if a == 0 then b else Or(a / 2, b / 2) * 2 + if a % 2 == 1 || b % 2 == 1 then 1 else 0
  }

  /** Halving, on both sides of a remainder. */
  lemma {:induction false} HalfRemainder(a: nat, per: nat)
    requires per > 0 && per % 2 == 0
    ensures a % per == 0 <==> a % 2 == 0 && a / 2 % (per / 2) == 0
  {
    var half := per / 2;
    DivParts(a, per);
    DivParts(a / 2, half);
    assert per == 2 * half;
    if a % per == 0 {
      assert a == 2 * (a / per * half);
      DivOf(a / 2, a / per, half);
    }
    if a % 2 == 0 && a / 2 % half == 0 {
      assert a == a / 2 / half * per;
      DivOf(a, a / 2 / half, per);
    }
  }

  /** The mask of a power of two tells whether both numbers are multiples of it. */
  lemma {:induction false} MaskExact(a: nat, b: nat, per: nat)
    requires PowerOfTwo(per)
    ensures And(Or(a, b), per - 1) == 0 <==> a % per == 0 && b % per == 0
    decreases per
  {
    if per > 1 {
      MaskExact(a / 2, b / 2, per / 2);
      HalfRemainder(a, per);
      HalfRemainder(b, per);
      OrHalves(a, b);
      assert (per - 1) / 2 == per / 2 - 1 && (per - 1) % 2 == 1;
    }
  }

  lemma {:induction false} OrHalves(a: nat, b: nat)
    ensures Or(a, b) / 2 == Or(a / 2, b / 2) && (Or(a, b) % 2 == 0 <==> a % 2 == 0 && b % 2 == 0)
  {
  }

  /** The loop of pg_image_ctr, with the device's logical block in sectors. */
  method CheckAligned(file: seq<Extent>, per: nat) returns (ok: bool)
    requires PowerOfTwo(per)
    ensures ok <==> BlockAligned(file, per)
  {
    var i: nat := 0;
    while i < |file|
      invariant i <= |file| && forall j :: 0 <= j < i ==> file[j].start % per == 0 && file[j].end % per == 0
    {
      MaskExact(file[i].start, file[i].end, per);
      if And(Or(file[i].start, file[i].end), per - 1) != 0 {
        return false;
      }
      i := i + 1;
    }
    ok := true;
  }

  /** The checks of pg_image_ctr on one claim, in order. */
  method AdmitImage(c: ClaimSlot, len: u64, writable: bool, found: bool, per: nat, payload: bool) returns (ok: bool)
    requires c.ClaimSlot? && PowerOfTwo(per)
    ensures ok <==> !c.refused && c.checked && len <= c.limit && !(writable && c.readonly) && found && payload && BlockAligned(c.file, per)
  {
    if c.refused || !c.checked || len > c.limit || (writable && c.readonly) || !found {
      return false;
    }
    ok := CheckAligned(c.file, per);
    ok := ok && payload;
  }

  /** pg_image_map's decision on one claim. */
  method AnswerImage(c: ClaimSlot, dev: int, lsec: u64, count: u64, write: bool) returns (o: Outcome)
    requires c.ClaimSlot? && ClaimFits(c)
    ensures ClaimOutcome(ClaimOf(c), dev, lsec, count, write, o)
  {
    if count == 0 {
      return Flush(dev);
    }
    var left: u64, phys: u64 := 0, 0;
    if !c.refused && !(write && c.readonly) {
      left, phys := Claim.Gather(c.file, lsec);
    }
    o := if left == 0 then Kill else Remap(dev, phys, if count > left then left else count);
  }

  /** pg_range_blocks on a claim's normal form answers for its sectors. */
  lemma {:induction false} BlocksHits(s: State, i: int, c: ClaimSlot, sector: u64, count: u64)
    requires 0 <= i < |s.claims| && s.claims[i] == ClaimOf(c) && c.ClaimSlot? && ClaimFits(c) && count > 0
    ensures HitsClaim(s, c.vol, sector, count, i) <==> Range.Refused(c.norm, sector, count)
  {
    SectorsMembers(c.file);
    if x :| sector <= x < sector + count && Covers(c.norm, x) {
      assert x in s.claims[i].file;
    }
    if x :| sector <= x < sector + count && x in s.claims[i].file {
      assert Covers(c.norm, x);
    }
  }

  /** The loop of pg_volume_map: does the request meet a live claim on the volume? */
  method AnyClaimHit(cs: seq<ClaimSlot>, vol: int, sector: u64, count: u64, ghost s: State) returns (hit: bool)
    requires count > 0 && (forall i :: 0 <= i < |cs| ==> ClaimFits(cs[i])) && s.claims == ClaimsOf(cs)
    ensures hit <==> exists i :: 0 <= i < |s.claims| && HitsClaim(s, vol, sector, count, i)
  {
    hit := false;
    var i: nat := 0;
    while i < |cs| && !hit
      invariant i <= |cs|
      invariant hit <==> exists j :: 0 <= j < i && HitsClaim(s, vol, sector, count, j)
    {
      if cs[i].ClaimSlot? && cs[i].vol == vol {
        assert ClaimFits(cs[i]);
        BlocksHits(s, i, cs[i], sector, count);
        hit := Range.Blocks(cs[i].norm, sector, count);
      }
      assert hit <==> HitsClaim(s, vol, sector, count, i);
      i := i + 1;
    }
  }
}
