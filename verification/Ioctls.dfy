/** kernel/dm-paguro/pg_ctl.c: what each claim ioctl decides, as the new slots it commits under the
    write lock; each decision is the abstract machine's. */
module Ioctls {
  import opened Words
  import opened Extents
  import opened Views
  import opened Isolation
  import opened Slots
  import opened Derivation
  import Claim

  /** The abstract machine's state behind the slots. */
  ghost predicate Behind(s: State, vs: seq<VolumeSlot>, cs: seq<ClaimSlot>) {
    SlotsFit(vs, cs) && s.volumes == VolumesOf(vs) && s.claims == ClaimsOf(cs)
  }

  lemma {:induction false} LimitIn(format: int, size: u64, file: seq<Extent>)
    requires Limit(format, size) > 0 && size / 512 <= |Sectors(file)|
    ensures 0 <= Limit(format, size) < TWO64 && LimitFits(format, Limit(format, size), file)
  {
  }

  /** A new slot among the claims keeps the slots in form. */
  lemma {:induction false} Placed(s: State, vs: seq<VolumeSlot>, cs: seq<ClaimSlot>, i: nat, c: ClaimSlot)
    requires Behind(s, vs, cs) && i < |cs| && ClaimFits(c)
    ensures SlotsFit(vs, cs[i := c]) && ClaimsOf(cs[i := c]) == s.claims[i := ClaimOf(c)]
  {
    ClaimsOfUpdate(cs, i, c);
  }

  // ---- PG_VOLUME_ADD -------------------------------------------------------

  /** Nothing stands against the addition, and slot is the one it takes. */
  ghost predicate Addable(s: State, a: AddArgs, slot: int) {
    && |a.reserved| <= MAX_RESERVED && 0 <= a.flags <= 1
    && !(exists i :: 0 <= i < |s.volumes| && SameDevice(s.volumes[i], a))
    && slot == FirstFreeVolume(s.volumes, 0) < |s.volumes|
  }

  method AdmitVolume(vs: seq<VolumeSlot>, a: AddArgs, ghost s: State) returns (r: Reply, slot: nat)
    requires s.volumes == VolumesOf(vs)
    ensures r.errno == OK ==> Addable(s, a, slot)
    ensures r.errno != OK ==> !Addable(s, a, FirstFreeVolume(s.volumes, 0))
    ensures r.errno != OK ==> Views.VolumeAdd(s, a, Unprobed(Views.Device)) == (s, r)
  {
    slot := 0;
    if |a.reserved| > MAX_RESERVED || !(0 <= a.flags <= 1) {
      return Reply(EINVAL, NoError), 0;
    }
    var taken;
    taken, slot := ScanVolumes(vs, a);
    if taken {
      return Reply(EBUSY, Views.Device), 0;
    }
    r := Reply(if slot == |vs| then ENOSPC else OK, NoError);
  }

  /** The reply depends on the devices exactly as they are: past the first checks p is what they show. */
  method DecideAdd(vs: seq<VolumeSlot>, cs: seq<ClaimSlot>, a: AddArgs, plain: Option<Device>, raw: Option<Device>, ghost s: State)
    returns (r: Reply, vs': seq<VolumeSlot>, ghost p: Probe)
    requires Behind(s, vs, cs)
    ensures SlotsFit(vs', cs) && Views.VolumeAdd(s, a, p) == (s.(volumes := VolumesOf(vs')), r)
    ensures Addable(s, a, FirstFreeVolume(s.volumes, 0)) ==> ProbeFor(plain, raw, a.raw == a.plain, p)
    ensures r.errno == OK ==> Addable(s, a, FirstFreeVolume(s.volumes, 0)) && p.Probed? && Holds(plain, raw, a.raw == a.plain, p.shape.sectors)
  {
    vs', p := vs, Unprobed(Views.Device);
    var slot;
    r, slot := AdmitVolume(vs, a, s);
    if r.errno != OK {
      return;
    }
    var found := ProbeVolume(plain, raw, a.raw == a.plain);
    p := found;
    if found.Unprobed? {
      return Reply(ErrnoOf(found.error), found.error), vs, p;
    }
    ProbesFit(plain, raw, a.raw == a.plain, found);
    vs', r := TakeVolume(vs, cs, a, slot, found, s);
  }

  method TakeVolume(vs: seq<VolumeSlot>, cs: seq<ClaimSlot>, a: AddArgs, slot: nat, found: Probe, ghost s: State)
    returns (vs': seq<VolumeSlot>, r: Reply)
    requires Behind(s, vs, cs) && Addable(s, a, slot) && found.Probed?
    ensures SlotsFit(vs', cs) && Views.VolumeAdd(s, a, found) == (s.(volumes := VolumesOf(vs')), r)
  {
    var ok, reserved := ReserveRanges(a.reserved, found.shape.sectors);
    if !ok {
      return vs, Reply(EINVAL, NoError);
    }
    var v := VolumeSlot(a.raw, a.plain, found.dirty, a.flags == 1, found.shape, reserved, NoView, 0, 0, 0);
    VolumesOfUpdate(vs, slot, v);
    vs' := vs[slot := v];
    r := Reply(OK, NoError);
  }

  // ---- PG_CLAIM ------------------------------------------------------------

  /** The derived file, or why it cannot be claimed. */
  method Examine(vs: seq<VolumeSlot>, cs: seq<ClaimSlot>, vol: nat, format: nat, rec: u64, seqNo: nat, dev: Option<Device>, ghost s: State)
    returns (err: Error, file: seq<Extent>, norm: seq<Extent>, size: u64, ghost d: Derived)
    requires Behind(s, vs, cs) && vol < |vs| && vs[vol].VolumeSlot?
    ensures Sound(d, s.volumes[vol].shape.sectors) && err == ClaimError(s, vol, format, d)
    ensures err == NoError ==> d == Derived(Sectors(file), size) && Usable(file, norm) && Limit(format, size) > 0
    ensures err == NoError ==> size / 512 <= |Sectors(file)|
    ensures AnswerFor(dev, s.volumes[vol].shape, rec, seqNo, d)
  {
    err, file, norm, size, d := Derive(dev, vs[vol].shape, rec, seqNo);
    if err == NoError && Limit(format, size) == 0 {
      err := Empty;
    } else if err == NoError {
      err := FindConflict(vs, cs, vol, -1, file, norm, s);
    }
  }

  /** The claim may be made, and slot is the one it takes. */
  ghost predicate Admitted(s: State, volId: int, format: int, rec: u64, slot: int) {
    && VolumeLive(s, volId) && format <= FORMAT_VHD
    && !(exists i :: 0 <= i < |s.claims| && SameFile(s.claims[i], volId - 1, rec))
    && slot == FirstFreeClaim(s.claims, 0) < |s.claims|
  }

  method Admit(vs: seq<VolumeSlot>, cs: seq<ClaimSlot>, volId: int, format: nat, rec: u64, ghost seqNo: nat, ghost s: State)
    returns (r: Reply, slot: nat)
    requires s.volumes == VolumesOf(vs) && s.claims == ClaimsOf(cs)
    ensures r.errno == OK ==> Admitted(s, volId, format, rec, slot)
    ensures r.errno != OK ==> !Admitted(s, volId, format, rec, FirstFreeClaim(s.claims, 0))
    ensures r.errno != OK ==> MakeClaim(s, volId, format, rec, seqNo, Underived(Views.Device)) == (s, r)
  {
    slot := 0;
    if !(1 <= volId <= |vs|) || vs[volId - 1].NoVolume? {
      return Reply(ENOENT, NoError), 0;
    }
    if format > FORMAT_VHD {
      return Reply(EINVAL, NoError), 0;
    }
    var taken;
    taken, slot := ScanClaims(cs, volId - 1, rec);
    if taken {
      return Reply(EBUSY, Claimed), 0;
    }
    r := Reply(if slot == |cs| then ENOSPC else OK, NoError);
  }

  /** The new claim. */
  ghost function NewClaim(s: State, vol: int, format: int, rec: u64, seqNo: int, file: seq<int>, size: u64): ClaimState
    requires 0 <= vol < |s.volumes| && s.volumes[vol].Volume?
  {
    Live(vol, rec, seqNo, format, s.volumes[vol].ReadOnly(), false, false, Limit(format, size), file, 0, 0)
  }

  lemma {:induction false} AdmittedClaim(s: State, volId: int, format: int, rec: u64, seqNo: int, d: Derived, slot: int, e: Error)
    requires Admitted(s, volId, format, rec, slot) && e == ClaimError(s, volId - 1, format, d) && (d.Underived? ==> e != NoError)
    ensures MakeClaim(s, volId, format, rec, seqNo, d) ==
            if e != NoError then (s, Reply(ErrnoOf(e), e))
            else (s.(claims := s.claims[slot := NewClaim(s, volId - 1, format, rec, seqNo, d.file, d.size)]), Reply(OK, NoError))
  {
  }

  /** The new claim in its slot. */
  method Occupy(vs: seq<VolumeSlot>, cs: seq<ClaimSlot>, slot: nat, vol: nat, format: nat, rec: u64, seqNo: nat,
                file: seq<Extent>, norm: seq<Extent>, size: u64, ghost s: State) returns (cs': seq<ClaimSlot>)
    requires Behind(s, vs, cs) && vol < |vs| && vs[vol].VolumeSlot? && slot < |cs| && Usable(file, norm)
    requires Limit(format, size) > 0 && size / 512 <= |Sectors(file)|
    ensures SlotsFit(vs, cs') && ClaimsOf(cs') == s.claims[slot := NewClaim(s, vol, format, rec, seqNo, Sectors(file), size)]
  {
    LimitIn(format, size, file);
    var c := ClaimSlot(vol, rec, seqNo, format, vs[vol].dirty || vs[vol].addedReadOnly, false, false, Limit(format, size), file, norm, 0, 0);
    Placed(s, vs, cs, slot, c);
    cs' := cs[slot := c];
  }

  /** Past the first checks d is what the device says of the file. */
  method DecideClaim(vs: seq<VolumeSlot>, cs: seq<ClaimSlot>, volId: int, format: nat, rec: u64, seqNo: nat, dev: Option<Device>, ghost s: State)
    returns (r: Reply, cs': seq<ClaimSlot>, ghost d: Derived)
    requires Behind(s, vs, cs)
    ensures SoundFor(s, volId - 1, d) && SlotsFit(vs, cs')
    ensures MakeClaim(s, volId, format, rec, seqNo, d) == (s.(claims := ClaimsOf(cs')), r)
    ensures Admitted(s, volId, format, rec, FirstFreeClaim(s.claims, 0)) ==> AnswerFor(dev, s.volumes[volId - 1].shape, rec, seqNo, d)
    ensures r.errno == OK ==> Admitted(s, volId, format, rec, FirstFreeClaim(s.claims, 0)) && d.Derived?
  {
    d, cs' := Underived(Views.Device), cs;
    var slot;
    r, slot := Admit(vs, cs, volId, format, rec, seqNo, s);
    if r.errno != OK {
      return;
    }
    var err, file, norm, size;
    err, file, norm, size, d := Examine(vs, cs, volId - 1, format, rec, seqNo, dev, s);
    AdmittedClaim(s, volId, format, rec, seqNo, d, slot, err);
    if err == NoError {
      cs' := Occupy(vs, cs, slot, volId - 1, format, rec, seqNo, file, norm, size, s);
    }
    r := Reply(ErrnoOf(err), err);
  }

  // ---- PG_GROW -------------------------------------------------------------

  /** What the re-derived map of claim i amounts to. */
  method Judge(vs: seq<VolumeSlot>, cs: seq<ClaimSlot>, i: nat, dev: Option<Device>, ghost s: State)
    returns (err: Error, moved: bool, file: seq<Extent>, norm: seq<Extent>, limit: u64, ghost d: Derived)
    requires Behind(s, vs, cs) && i < |cs| && cs[i].ClaimSlot? && 0 <= cs[i].vol < |vs| && vs[cs[i].vol].VolumeSlot?
    ensures SoundFor(s, cs[i].vol, d)
    ensures GrowthOf(s, i, d) == if moved then Moved(err) else if err != NoError then Blocked(err) else Accepted(Sectors(file), limit)
    ensures !moved && err == NoError ==> Usable(file, norm) && LimitFits(cs[i].format, limit, file)
    ensures AnswerFor(dev, vs[cs[i].vol].shape, cs[i].rec, cs[i].seqNo, d)
  {
    var c := cs[i];
    assert ClaimFits(c) && s.claims[i] == ClaimOf(c) && s.volumes[c.vol] == VolumeOf(vs[c.vol]);
    var size;
    err, file, norm, size, d := Derive(dev, vs[c.vol].shape, c.rec, c.seqNo);
    moved, limit := err != NoError, 0;
    if moved {
      return;
    }
    var appended := StillThere(c, file);
    if !appended || Limit(c.format, size) < c.limit {
      err, moved := NotAppend, true;
    } else {
      LimitIn(c.format, size, file);
      limit := Limit(c.format, size);
      err := FindConflict(vs, cs, c.vol, i, file, norm, s);
    }
  }

  /** pg_claim_grows on a live claim: every sector it had is where it was. */
  method StillThere(c: ClaimSlot, file: seq<Extent>) returns (ok: bool)
    requires c.ClaimSlot? && ClaimFits(c) && Coalesced(file)
    ensures ok <==> Sectors(c.file) <= Sectors(file)
  {
    assert c.file != [];
    Claim.GrowsExact(c.file, file);
    ok := Claim.CheckGrows(c.file, file);
  }

  /** The slot after a growth that was neither refused nor blocked. */
  method Regrow(c: ClaimSlot, file: seq<Extent>, norm: seq<Extent>, limit: u64) returns (c': ClaimSlot)
    requires c.ClaimSlot? && ClaimFits(c) && Usable(file, norm) && LimitFits(c.format, limit, file)
    ensures ClaimFits(c') && ClaimOf(c).Live?
    ensures ClaimOf(c') == if Sectors(file) == Sectors(c.file) && limit == c.limit then ClaimOf(c)
                           else ClaimOf(c).(file := Sectors(file), limit := limit, checked := false)
  {
    var same := Same(c.file, file);
    if Sectors(c.file) == Sectors(file) {
      Claim.CoalescedUnique(c.file, file);
    }
    c' := if same && limit == c.limit then c else c.(file := file, norm := norm, limit := limit, checked := false);
  }

  /** d is what the device says of the claimed file now. */
  ghost predicate Rederived(vs: seq<VolumeSlot>, c: ClaimSlot, dev: Option<Device>, d: Derived)
    requires c.ClaimSlot?
  {
    0 <= c.vol < |vs| && vs[c.vol].VolumeSlot? && AnswerFor(dev, vs[c.vol].shape, c.rec, c.seqNo, d)
  }

  method DecideGrow(vs: seq<VolumeSlot>, cs: seq<ClaimSlot>, id: int, dev: Option<Device>, ghost s: State)
    returns (r: Reply, cs': seq<ClaimSlot>, ghost d: Derived)
    requires Behind(s, vs, cs) && (ClaimLive(s, id) ==> VolumeLive(s, s.claims[id - 1].vol + 1))
    ensures (ClaimLive(s, id) ==> SoundFor(s, s.claims[id - 1].vol, d)) && SlotsFit(vs, cs')
    ensures Views.Grow(s, id, d) == (s.(claims := ClaimsOf(cs')), r)
    ensures ClaimLive(s, id) && !s.claims[id - 1].refused ==> Rederived(vs, cs[id - 1], dev, d)
  {
    d, cs' := Underived(Views.Device), cs;
    if !(1 <= id <= |cs|) || cs[id - 1].NoClaim? {
      return Reply(ENOENT, NoError), cs, d;
    }
    var c := cs[id - 1];
    if c.refused {
      return Reply(EPERM, NoError), cs, d;
    }
    var err, moved, file, norm, limit;
    err, moved, file, norm, limit, d := Judge(vs, cs, id - 1, dev, s);
    r := Reply(OK, err);
    var c' := c;
    if moved {
      c' := c.(readonly := true);
    } else if err == NoError {
      c' := Regrow(c, file, norm, limit);
    }
    assert s.claims[id - 1 := s.claims[id - 1]] == s.claims;
    Placed(s, vs, cs, id - 1, c');
    cs' := cs[id - 1 := c'];
  }

  // ---- PG_CROSSCHECK -------------------------------------------------------

  method DecideCrossCheck(vs: seq<VolumeSlot>, cs: seq<ClaimSlot>, id: int, ranges: seq<UserRange>, ghost s: State)
    returns (r: Reply, cs': seq<ClaimSlot>)
    requires Behind(s, vs, cs)
    ensures SlotsFit(vs, cs') && Views.CrossCheck(s, id, ranges) == (s.(claims := ClaimsOf(cs')), r)
  {
    cs' := cs;
    if !(1 <= id <= |cs|) || cs[id - 1].NoClaim? {
      return Reply(ENOENT, NoError), cs;
    }
    if |ranges| == 0 || |ranges| > MAX_EXTENTS {
      return Reply(EINVAL, NoError), cs;
    }
    var c := cs[id - 1];
    if c.refused {
      return Reply(EPERM, NoError), cs;
    }
    assert ClaimFits(c);
    var agree := Compare(ranges, c.file, c.limit + if c.format == FORMAT_VHD then 1 else 0);
    var c' := if agree then c.(checked := true) else c.(checked := false, refused := true);
    Placed(s, vs, cs, id - 1, c');
    cs' := cs[id - 1 := c'];
    r := Reply(OK, NoError);
  }
}
