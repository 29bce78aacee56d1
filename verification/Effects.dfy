/** What each ioctl and table operation does, said of sectors, tables and agreements: when it takes effect,
    exactly, and what the effect is. */
module Effects {
  import opened Words
  import opened Views
  import opened Isolation
  import opened Guarantees

  /** A file would share a sector with the reserved ranges of a volume or with another live claim on it. */
  ghost predicate Clashes(s: State, vol: int, self: int, file: seq<int>)
    requires 0 <= vol < |s.volumes| && s.volumes[vol].Volume?
  {
    exists x :: x in file && (x in s.volumes[vol].reserved || Taken(s, vol, self, x))
  }

  /** Sector x belongs to another live claim on the volume. */
  ghost predicate Taken(s: State, vol: int, self: int, x: int) {
    exists i :: i != self && Owns(s, i, x) && s.claims[i].vol == vol
  }

  lemma {:induction false} ConflictExact(s: State, vol: int, self: int, file: seq<int>)
    requires 0 <= vol < |s.volumes| && s.volumes[vol].Volume?
    ensures Conflict(s, vol, self, file) == NoError <==> !Clashes(s, vol, self, file)
  {
    if x :| x in file && (x in s.volumes[vol].reserved || Taken(s, vol, self, x)) {
      if Taken(s, vol, self, x) {
        var i :| i != self && Owns(s, i, x) && s.claims[i].vol == vol;
        assert Common(file, s.claims[i].file);
        assert Collides(s, vol, self, file, i);
      }
    }
    if i :| 0 <= i < |s.claims| && Collides(s, vol, self, file, i) {
      var x :| x in file && x in s.claims[i].file;
      assert Owns(s, i, x);
      assert Taken(s, vol, self, x);
    }
  }

  // ---- PG_VOLUME_ADD and PG_VOLUME_REMOVE ----------------------------------

  /** What PG_VOLUME_ADD asks for: known flags, devices no live volume has in the same role, a free slot, a
      volume on the devices, and reserved ranges inside it. */
  ghost predicate MayAdd(s: State, a: AddArgs, p: Probe) {
    && |a.reserved| <= 8 && (a.flags == 0 || a.flags == 1) && p.Probed?
    && (forall i :: 0 <= i < |s.volumes| && s.volumes[i].Volume? ==> s.volumes[i].raw != a.raw && s.volumes[i].plain != a.plain)
    && (exists i :: 0 <= i < |s.volumes| && s.volumes[i].FreeVolume?)
    && (forall j :: 0 <= j < |a.reserved| ==> 0 < a.reserved[j].len && a.reserved[j].start + a.reserved[j].len <= p.shape.sectors)
  }

  /** The volume as it was registered. */
  ghost predicate AsAdded(v: Volume, a: AddArgs, p: Probe) {
    && v.Volume? && p.Probed?
    && v.raw == a.raw && v.plain == a.plain && v.shape == p.shape && v.dirty == p.dirty
    && (v.addedReadOnly <==> a.flags == 1) && (forall x :: x in v.reserved <==> InRanges(a.reserved, x))
  }

  /** It takes effect exactly then: one free slot becomes the volume asked for. */
  lemma {:induction false} AddExact(s: State, a: AddArgs, p: Probe)
    requires Linked(s)
    ensures (p.Unprobed? ==> p.error != NoError) ==> (VolumeAdd(s, a, p).1.errno == OK <==> MayAdd(s, a, p))
    ensures MayAdd(s, a, p) ==> exists i :: 0 <= i < |s.volumes| && s.volumes[i].FreeVolume? && TookSlot(s, a, p, i)
    ensures !MayAdd(s, a, p) ==> VolumeAdd(s, a, p).0 == s
  {
    if MayAdd(s, a, p) {
      var i := FirstFreeVolume(s.volumes, 0);
      assert TookSlot(s, a, p, i);
    }
  }

  /** Slot i is the new volume and nothing else changed. */
  ghost predicate TookSlot(s: State, a: AddArgs, p: Probe, i: int)
    requires 0 <= i < |s.volumes|
  {
    var s' := VolumeAdd(s, a, p).0;
    && |s'.volumes| == |s.volumes| && AsAdded(s'.volumes[i], a, p) && s'.volumes[i].guardHits == 0 == s'.volumes[i].readaheadHits
    && s' == s.(volumes := s.volumes[i := s'.volumes[i]])
  }

  /** PG_VOLUME_REMOVE frees exactly a volume that no claim and no table uses. */
  lemma {:induction false} RemoveExact(s: State, id: int)
    requires Inv(s) && VolumeLive(s, id)
    ensures VolumeRemove(s, id).0 == if InUse(s, id - 1) then s else s.(volumes := s.volumes[id - 1 := FreeVolume])
  {
    if t :| t in s.views && s.views[t].vol == id - 1 {
      assert t in ViewsOf(s.views, id - 1);
    }
    if s.volumes[id - 1].viewTables != 0 {
      assert ViewsOf(s.views, id - 1) != {};
      var t :| t in ViewsOf(s.views, id - 1);
    }
  }

  // ---- PG_CLAIM and PG_RELEASE ---------------------------------------------

  /** What PG_CLAIM asks for: a live volume, a known format, a file not claimed yet, a free slot, and a map
      with data that clashes with nothing. */
  ghost predicate MayClaim(s: State, volId: int, format: int, rec: u64, d: Derived) {
    && VolumeLive(s, volId) && format <= 1 && d.Derived?
    && (forall i :: 0 <= i < |s.claims| && s.claims[i].Live? ==> !(s.claims[i].vol == volId - 1 && s.claims[i].rec == rec))
    && (exists i :: 0 <= i < |s.claims| && s.claims[i].FreeClaim?)
    && d.size / 512 > (if format == 1 then 1 else 0) && !Clashes(s, volId - 1, -1, d.file)
  }

  /** The claim as it was made: the file asked for, with the sectors and the size derived, neither checked
      nor refused, and read-only exactly on a volume that is dirty or was added so. */
  ghost predicate AsClaimed(c: ClaimState, v: Volume, volId: int, format: int, rec: u64, seqNo: int, d: Derived) {
    && c.Live? && d.Derived? && v.Volume?
    && c.vol == volId - 1 && c.format == format && c.rec == rec && c.seqNo == seqNo
    && c.file == d.file && c.DataSectors() == d.size / 512
    && !c.checked && !c.refused && (c.readonly <==> v.dirty || v.addedReadOnly) && c.imageTables == 0 && c.refusals == 0
  }

  ghost predicate TookClaim(s: State, volId: int, format: int, rec: u64, seqNo: int, d: Derived, i: int)
    requires 0 <= i < |s.claims| && VolumeLive(s, volId)
  {
    var s' := MakeClaim(s, volId, format, rec, seqNo, d).0;
    && |s'.claims| == |s.claims| && AsClaimed(s'.claims[i], s.volumes[volId - 1], volId, format, rec, seqNo, d)
    && s' == s.(claims := s.claims[i := s'.claims[i]])
  }

  lemma {:induction false} ClaimExact(s: State, volId: int, format: int, rec: u64, seqNo: int, d: Derived)
    requires Linked(s)
    ensures (d.Underived? ==> d.error != NoError) ==> (MakeClaim(s, volId, format, rec, seqNo, d).1.errno == OK <==> MayClaim(s, volId, format, rec, d))
    ensures MayClaim(s, volId, format, rec, d) ==> exists i :: 0 <= i < |s.claims| && s.claims[i].FreeClaim? && TookClaim(s, volId, format, rec, seqNo, d, i)
    ensures !MayClaim(s, volId, format, rec, d) ==> MakeClaim(s, volId, format, rec, seqNo, d).0 == s
  {
    if VolumeLive(s, volId) && d.Derived? {
      ConflictExact(s, volId - 1, -1, d.file);
    }
    if MayClaim(s, volId, format, rec, d) {
      var i := FirstFreeClaim(s.claims, 0);
      assert TookClaim(s, volId, format, rec, seqNo, d, i);
    }
  }

  /** PG_RELEASE frees exactly a claim that no table of view A uses. */
  lemma {:induction false} ReleaseExact(s: State, id: int)
    requires Inv(s) && ClaimLive(s, id)
    ensures Release(s, id).0 ==
            if exists t :: t in s.images && s.images[t].claim == id - 1 then s else s.(claims := s.claims[id - 1 := FreeClaim])
  {
    if t :| t in s.images && s.images[t].claim == id - 1 {
      assert t in ImagesOf(s.images, id - 1);
    }
    if s.claims[id - 1].imageTables != 0 {
      assert ImagesOf(s.images, id - 1) != {};
      var t :| t in ImagesOf(s.images, id - 1);
    }
  }

  // ---- PG_GROW -------------------------------------------------------------

  /** The re-derived map lost something: there is none, an old sector moved, or data went missing. */
  ghost predicate Lost(c: ClaimState, d: Derived)
    requires c.Live?
  {
    d.Underived? || !(c.file <= d.file) || d.size / 512 < c.DataSectors()
  }

  /** PG_GROW of a live claim that is not refused: writes stop exactly when something was lost; a map that
      clashes changes nothing; any other replaces the old one, and stays checked only if it is the same. */
  lemma {:induction false} GrowExact(s: State, id: int, d: Derived)
    requires Inv(s) && ClaimLive(s, id) && !s.claims[id - 1].refused
    ensures var c, s' := s.claims[id - 1], Grow(s, id, d).0;
            && |s'.claims| == |s.claims| && s' == s.(claims := s.claims[id - 1 := s'.claims[id - 1]])
            && GrownTo(s, id - 1, d, s'.claims[id - 1])
  {
    var c := s.claims[id - 1];
    assert ClaimFit(c, s.volumes[c.vol]);
    assert s.claims[id - 1 := c] == s.claims;
    if d.Derived? {
      ConflictExact(s, c.vol, id - 1, d.file);
      LimitData(c.format, d.size, c.limit);
    }
  }

  ghost predicate GrownTo(s: State, i: int, d: Derived, c': ClaimState)
    requires Linked(s) && 0 <= i < |s.claims| && s.claims[i].Live?
  {
    var c := s.claims[i];
    if Lost(c, d) then c' == c.(readonly := true)
    else if Clashes(s, c.vol, i, d.file) then c' == c
    else
      && c'.Live? && c'.file == d.file && c'.DataSectors() == d.size / 512
      && c' == c.(file := c'.file, limit := c'.limit, checked := c'.checked)
      && (c'.checked <==> c.checked && c'.file == c.file && c'.limit == c.limit)
  }

  /** The limit leaves out a VHD's last sector and nothing else. */
  lemma {:induction false} LimitData(format: int, size: u64, limit: int)
    requires limit > 0
    ensures Limit(format, size) < limit <==> size / 512 < limit + if format == FORMAT_VHD then 1 else 0
    ensures Limit(format, size) >= limit ==> Limit(format, size) + (if format == FORMAT_VHD then 1 else 0) == size / 512
  {
  }

  // ---- PG_CROSSCHECK -------------------------------------------------------

  /** PG_CROSSCHECK of a live claim that is not refused, with a list that is taken: agreement over all the
      file's data checks the claim, anything else refuses it. */
  lemma {:induction false} CrossCheckExact(s: State, id: int, rs: seq<UserRange>)
    requires Linked(s) && ClaimLive(s, id) && !s.claims[id - 1].refused && 0 < |rs| <= 65536
    ensures var c, s' := s.claims[id - 1], CrossCheck(s, id, rs).0;
            && |s'.claims| == |s.claims| && s' == s.(claims := s.claims[id - 1 := s'.claims[id - 1]])
            && s'.claims[id - 1] == c.(checked := Agrees(rs, c.file, c.DataSectors()), refused := !Agrees(rs, c.file, c.DataSectors()))
  {
  }

  // ---- tables --------------------------------------------------------------

  /** A table of view A is built exactly over a live claim that was checked and not refused, no longer than
      its limit, not writable where the claim is read-only, past the device, alignment and payload checks. */
  lemma {:induction false} ImageExact(s: State, t: nat, id: int, len: u64, writable: bool, gate: bool)
    requires Linked(s) && t !in s.images
    ensures var s' := ImageCtr(s, t, id, len, writable, gate).0;
            && (t in s'.images <==> ClaimLive(s, id) && Tabled(s.claims[id - 1], len, writable) && gate)
            && (t in s'.images ==> s'.images == s.images[t := Image(id - 1, s.volumes[s.claims[id - 1].vol].plain, len, writable)])
            && (t !in s'.images ==> s' == s)
  {
  }

  ghost predicate Tabled(c: ClaimState, len: u64, writable: bool) {
    c.Live? && c.checked && !c.refused && len <= c.limit && (writable ==> !c.readonly)
  }

  /** A table of view B or C is built exactly over a live volume in no other view, on a device that was
      found, and never writable on a read-only volume nor as view B on a dirty one. */
  lemma {:induction false} ViewExact(s: State, t: nat, id: int, mode: View, writable: bool, found: bool)
    requires Inv(s) && t !in s.views && mode != NoView
    ensures var s' := ViewCtr(s, t, id, mode, writable, found).0;
            && (t in s'.views <==>
                  VolumeLive(s, id) && found && (forall u :: u in s.views && s.views[u].vol == id - 1 ==> s.views[u].mode == mode)
                  && !(writable && s.volumes[id - 1].ReadOnly()) && !(mode == ViewB && s.volumes[id - 1].dirty))
            && (t in s'.views ==>
                  s'.views == s.views[t := Table(id - 1, if mode == ViewB then s.volumes[id - 1].raw else s.volumes[id - 1].plain, mode, writable)])
            && (t !in s'.views ==> s' == s)
  {
    if VolumeLive(s, id) {
      OneView(s, id - 1, mode);
    }
  }

  /** The view a volume is in is that of its tables. */
  lemma {:induction false} OneView(s: State, v: int, mode: View)
    requires Inv(s) && 0 <= v < |s.volumes| && s.volumes[v].Volume? && mode != NoView
    ensures s.volumes[v].view == NoView || s.volumes[v].view == mode <==> forall u :: u in s.views && s.views[u].vol == v ==> s.views[u].mode == mode
  {
    forall u | u in s.views && s.views[u].vol == v ensures s.views[u].mode == s.volumes[v].view && s.volumes[v].view != NoView {
      assert ViewFit(s.volumes[s.views[u].vol], s.views[u]);
    }
    if s.volumes[v].view != NoView {
      assert ViewsOf(s.views, v) != {};
      var u :| u in ViewsOf(s.views, v);
    }
  }

  // ---- requests ------------------------------------------------------------

  /** View A refuses exactly by state or past the end of the file, and otherwise goes as far as asked or as
      the physical run goes. */
  lemma {:induction false} ImageServes(s: State, t: nat, lsec: u64, count: u64, write: bool, o: Outcome)
    requires Inv(s) && t in s.images && ImageOutcome(s, t, lsec, count, write, o) && count > 0
    ensures var c := s.claims[s.images[t].claim];
            && (o == Kill <==> c.refused || (write && c.readonly) || lsec >= |c.file|)
            && (o != Kill ==>
                  && o.Remap? && 0 < o.count <= count && lsec + o.count <= |c.file|
                  && (o.count < count && lsec + o.count < |c.file| ==> c.file[lsec + o.count] != o.sector + o.count))
  {
  }

  /** Views B and C refuse exactly what names a claimed sector of the volume or, with claims there, wraps;
      everything else goes through as it is. */
  lemma {:induction false} ViewServes(s: State, t: nat, sector: u64, count: u64, o: Outcome)
    requires Linked(s) && t in s.views && ViewOutcome(s, t, sector, count, o) && count > 0
    ensures var v := s.views[t].vol;
            && (o == Kill <==> exists i :: 0 <= i < |s.claims| && s.claims[i].Live? && s.claims[i].vol == v
                                        && (sector + count >= TWO64 || Touching(s, i, sector, count)))
            && (o != Kill ==> o == Remap(s.views[t].dev, sector, count))
  {
    if i :| 0 <= i < |s.claims| && HitsClaim(s, s.views[t].vol, sector, count, i) {
      assert forall x :: Owns(s, i, x) <==> x in s.claims[i].file;
      assert sector + count >= TWO64 || Touching(s, i, sector, count);
    }
    if i :| 0 <= i < |s.claims| && s.claims[i].Live? && s.claims[i].vol == s.views[t].vol
            && (sector + count >= TWO64 || Touching(s, i, sector, count)) {
      assert HitsClaim(s, s.views[t].vol, sector, count, i);
    }
  }

  ghost predicate Touching(s: State, i: int, sector: int, count: int) {
    exists x :: sector <= x < sector + count && Owns(s, i, x)
  }
}
