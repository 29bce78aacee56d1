/** kernel/dm-paguro/pg_ctl.c and dm-paguro-main.c: the control device and the three views, as an
    object that changes its slots step by step. Every operation is one step of the abstract machine,
    and the object keeps the whole run so far as a ghost: what is proved of every run holds of it. */
module Control {
  import opened Words
  import opened Views
  import opened Isolation
  import opened Slots
  import opened Derivation
  import opened Ioctls
  import Guarantees
  import Devices

  lemma {:induction false} RunGrows(past: seq<State>, events: seq<Event>, e: Event, s: State)
    requires Run(past, events) && Step(past[|events|], e, s)
    ensures Run(past + [s], events + [e])
  {
    var ps, es := past + [s], events + [e];
    forall k | 0 <= k < |es| ensures StepHolds(ps, es, k) {
      if k < |events| {
        assert StepHolds(past, events, k);
      }
    }
  }

  class Module {
    var volumes: seq<VolumeSlot>
    var claims: seq<ClaimSlot>
    var images: map<nat, Image>
    var views: map<nat, Table>
    ghost var past: seq<State>
    ghost var events: seq<Event>

    ghost function Abs(): State
      reads this
    {
      Abstract(volumes, claims, images, views)
    }

    ghost predicate Valid()
      reads this
    {
      SlotsFit(volumes, claims) && Run(past, events) && past[|events|] == Abs()
    }

    /** The object is where the run was, one event later. */
    ghost predicate Took(before: seq<State>, es: seq<Event>, e: Event)
      reads this
    {
      && Valid() && |before| == |es| + 1
      && past == before + [Abs()] && events == es + [e]
      && Step(before[|es|], e, Abs())
    }

    constructor ()
      ensures Valid() && Abs() == Initial() && events == []
    {
      volumes := seq(MAX_VOLUMES, _ => NoVolume);
      claims := seq(MAX_CLAIMS, _ => NoClaim);
      images, views := map[], map[];
      past, events := [Initial()], [];
      new;
      assert Abs().volumes == Initial().volumes && Abs().claims == Initial().claims;
    }

    ghost method Log(e: Event)
      requires SlotsFit(volumes, claims) && Run(past, events) && Step(past[|events|], e, Abs())
      modifies this`past, this`events
      ensures Took(old(past), old(events), e)
    {
      RunGrows(past, events, e, Abs());
      past, events := past + [Abs()], events + [e];
    }

    /** What every run keeps holds now. */
    lemma {:induction false} Current()
      requires Valid()
      ensures Linked(Abs())
    {
      RunInv(past, events, |events|);
    }

    /** Of everything this object ever passed on to the plaintext device of a claim's volume, only
        requests of the claim's own view A reached that claim's sectors, and those of view B of another
        volume registered with that device as its raw one. */
    lemma {:induction false} Guarded(k: nat, i: int, x: int)
      requires Valid() && k < |events| && Guarantees.Owns(past[k], i, x) && Linked(past[k])
      requires Devices.Reaches(events[k], past[k].volumes[past[k].claims[i].vol].plain, x)
      ensures var v := past[k].claims[i].vol;
              Devices.OwnViewA(past[k], events[k], i) || Devices.ForeignViewB(past[k], events[k], v, past[k].volumes[v].plain)
    {
      Devices.ReachedOnDevice(past, events, k, i, x);
    }

    // ---- ioctls ------------------------------------------------------------

    /** pg_volume_add. */
    method VolumeAdd(a: AddArgs, plain: Option<Device>, raw: Option<Device>) returns (r: Reply, ghost p: Probe)
      requires Valid()
      modifies this
      ensures Took(old(past), old(events), EvVolumeAdd(a, p))
      ensures r == Views.VolumeAdd(old(Abs()), a, p).1
      ensures Addable(old(Abs()), a, FirstFreeVolume(old(Abs()).volumes, 0)) ==> ProbeFor(plain, raw, a.raw == a.plain, p)
      ensures r.errno == OK ==> Addable(old(Abs()), a, FirstFreeVolume(old(Abs()).volumes, 0)) && p.Probed?
      ensures r.errno == OK ==> Holds(plain, raw, a.raw == a.plain, p.shape.sectors)
    {
      Current();
      var vs;
      r, vs, p := DecideAdd(volumes, claims, a, plain, raw, Abs());
      volumes := vs;
      Log(EvVolumeAdd(a, p));
    }

    /** pg_claim_ioctl. */
    method ClaimFile(volId: int, format: nat, rec: u64, seqNo: nat, dev: Option<Device>) returns (r: Reply, ghost d: Derived)
      requires Valid()
      modifies this
      ensures Took(old(past), old(events), EvClaim(volId, format, rec, seqNo, d))
      ensures r == MakeClaim(old(Abs()), volId, format, rec, seqNo, d).1
      ensures Admitted(old(Abs()), volId, format, rec, FirstFreeClaim(old(Abs()).claims, 0)) ==> AnswerFor(dev, old(Abs()).volumes[volId - 1].shape, rec, seqNo, d)
      ensures r.errno == OK ==> Admitted(old(Abs()), volId, format, rec, FirstFreeClaim(old(Abs()).claims, 0)) && d.Derived?
    {
      Current();
      var cs;
      r, cs, d := DecideClaim(volumes, claims, volId, format, rec, seqNo, dev, Abs());
      claims := cs;
      Log(EvClaim(volId, format, rec, seqNo, d));
    }

    /** pg_grow_ioctl. */
    method Grow(id: int, dev: Option<Device>) returns (r: Reply, ghost d: Derived)
      requires Valid()
      modifies this
      ensures Took(old(past), old(events), EvGrow(id, d))
      ensures Linked(old(Abs())) && r == Views.Grow(old(Abs()), id, d).1
      ensures ClaimLive(old(Abs()), id) && !old(Abs()).claims[id - 1].refused ==> Rederived(old(volumes), old(claims)[id - 1], dev, d)
    {
      Current();
      var cs;
      r, cs, d := DecideGrow(volumes, claims, id, dev, Abs());
      claims := cs;
      Log(EvGrow(id, d));
    }

    /** pg_crosscheck_ioctl. */
    method CrossCheck(id: int, ranges: seq<UserRange>) returns (r: Reply)
      requires Valid()
      modifies this
      ensures Took(old(past), old(events), EvCrossCheck(id, ranges))
      ensures r == Views.CrossCheck(old(Abs()), id, ranges).1
    {
      Current();
      var cs;
      r, cs := DecideCrossCheck(volumes, claims, id, ranges, Abs());
      claims := cs;
      Log(EvCrossCheck(id, ranges));
    }

    /** pg_release_ioctl. */
    method Release(id: int) returns (r: Reply)
      requires Valid()
      modifies this
      ensures Took(old(past), old(events), EvRelease(id))
      ensures r == Views.Release(old(Abs()), id).1
    {
      Current();
      if !(1 <= id <= |claims|) || claims[id - 1].NoClaim? {
        r := Reply(ENOENT, NoError);
      } else if claims[id - 1].imageTables != 0 {
        r := Reply(EBUSY, NoError);
      } else {
        ClaimsOfUpdate(claims, id - 1, NoClaim);
        claims := claims[id - 1 := NoClaim];
        r := Reply(OK, NoError);
      }
      Log(EvRelease(id));
    }

    /** pg_volume_remove. */
    method VolumeRemove(id: int) returns (r: Reply)
      requires Valid()
      modifies this
      ensures Took(old(past), old(events), EvVolumeRemove(id))
      ensures r == Views.VolumeRemove(old(Abs()), id).1
    {
      Current();
      if !(1 <= id <= |volumes|) || volumes[id - 1].NoVolume? {
        Log(EvVolumeRemove(id));
        return Reply(ENOENT, NoError);
      }
      var any := AnyClaimOn(claims, id);
      if any || volumes[id - 1].viewTables != 0 {
        Log(EvVolumeRemove(id));
        return Reply(EBUSY, NoError);
      }
      VolumesOfUpdate(volumes, id - 1, NoVolume);
      volumes := volumes[id - 1 := NoVolume];
      Log(EvVolumeRemove(id));
      r := Reply(OK, NoError);
    }

    // ---- view A: paguro-image ----------------------------------------------

    /** pg_image_ctr, for a new table t; `found` and `payload` are the verdicts of the device lookup
        and of the payload check, `per` the device's logical block in sectors. */
    method ImageCtr(t: nat, id: int, len: u64, writable: bool, found: bool, per: nat, payload: bool) returns (ok: bool, ghost gate: bool)
      requires Valid() && t !in images && PowerOfTwo(per)
      modifies this
      ensures Took(old(past), old(events), EvImageCtr(t, id, len, writable, gate))
      ensures Linked(old(Abs())) && ok == Views.ImageCtr(old(Abs()), t, id, len, writable, gate).1
      ensures gate <==> ClaimLive(old(Abs()), id) && found && payload && BlockAligned(old(claims)[id - 1].file, per)
    {
      Current();
      gate, ok := false, false;
      if 1 <= id <= |claims| && claims[id - 1].ClaimSlot? {
        var c := claims[id - 1];
        gate := found && payload && BlockAligned(c.file, per);
        ok := AdmitImage(c, len, writable, found, per, payload);
        if ok {
          var c' := c.(imageTables := c.imageTables + 1);
          ClaimsOfUpdate(claims, id - 1, c');
          claims := claims[id - 1 := c'];
          images := images[t := Image(id - 1, volumes[c.vol].plain, len, writable)];
        }
      }
      Log(EvImageCtr(t, id, len, writable, gate));
    }

    /** pg_image_dtr. */
    method ImageDtr(t: nat)
      requires Valid() && t in images
      modifies this
      ensures Took(old(past), old(events), EvImageDtr(t))
    {
      Current();
      var i := images[t].claim;
      var c := claims[i].(imageTables := claims[i].imageTables - 1);
      ClaimsOfUpdate(claims, i, c);
      claims := claims[i := c];
      images := images - {t};
      Log(EvImageDtr(t));
    }

    /** pg_image_map: a request of `count` sectors at logical sector lsec of table t. */
    method ImageMap(t: nat, lsec: u64, count: u64, write: bool) returns (o: Outcome)
      requires Valid() && t in images
      modifies this
      ensures Took(old(past), old(events), EvImageMap(t, lsec, count, write, o))
    {
      Current();
      var i := images[t].claim;
      var c := claims[i];
      assert ClaimFits(c);
      o := AnswerImage(c, images[t].dev, lsec, count, write);
      if o == Kill {
        var c' := c.(refusals := c.refusals + 1);
        ClaimsOfUpdate(claims, i, c');
        claims := claims[i := c'];
      }
      Log(EvImageMap(t, lsec, count, write, o));
    }

    // ---- views B and C: paguro-volume --------------------------------------

    /** pg_volume_ctr, for a new table t; `found` is the verdict of the device lookup. */
    method ViewCtr(t: nat, id: int, mode: View, writable: bool, found: bool) returns (r: Reply)
      requires Valid() && t !in views && mode != NoView
      modifies this
      ensures Took(old(past), old(events), EvViewCtr(t, id, mode, writable, found))
      ensures r == Views.ViewCtr(old(Abs()), t, id, mode, writable, found).1
    {
      Current();
      if !(1 <= id <= |volumes|) || volumes[id - 1].NoVolume? {
        r := Reply(EINVAL, NoError);
      } else {
        var v := volumes[id - 1];
        if v.view != NoView && v.view != mode {
          r := Reply(EBUSY, NoError);
        } else if (v.dirty && (mode == ViewB || writable)) || (v.addedReadOnly && writable) {
          r := Reply(EINVAL, NoError);
        } else if !found {
          r := Reply(ENODEV, NoError);
        } else {
          var v' := v.(view := mode, viewTables := v.viewTables + 1);
          VolumesOfUpdate(volumes, id - 1, v');
          volumes := volumes[id - 1 := v'];
          views := views[t := Table(id - 1, if mode == ViewB then v.raw else v.plain, mode, writable)];
          r := Reply(OK, NoError);
        }
      }
      Log(EvViewCtr(t, id, mode, writable, found));
    }

    /** pg_volume_dtr. */
    method ViewDtr(t: nat)
      requires Valid() && t in views
      modifies this
      ensures Took(old(past), old(events), EvViewDtr(t))
    {
      Current();
      var i := views[t].vol;
      var v := volumes[i];
      var v' := v.(viewTables := v.viewTables - 1, view := if v.viewTables == 1 then NoView else v.view);
      VolumesOfUpdate(volumes, i, v');
      volumes := volumes[i := v'];
      views := views - {t};
      Log(EvViewDtr(t));
    }

    /** pg_volume_map: a request of `count` sectors at `sector` of table t. */
    method ViewMap(t: nat, sector: u64, count: u64, readahead: bool) returns (o: Outcome)
      requires Valid() && t in views
      modifies this
      ensures Took(old(past), old(events), EvViewMap(t, sector, count, readahead, o))
    {
      Current();
      var i := views[t].vol;
      if count == 0 {
        o := Flush(views[t].dev);
      } else {
        var hit := AnyClaimHit(claims, i, sector, count, Abs());
        o := if hit then Kill else Remap(views[t].dev, sector, count);
      }
      if o == Kill {
        var v := volumes[i];
        var v' := if readahead then v.(readaheadHits := v.readaheadHits + 1) else v.(guardHits := v.guardHits + 1);
        VolumesOfUpdate(volumes, i, v');
        volumes := volumes[i := v'];
      }
      Log(EvViewMap(t, sector, count, readahead, o));
    }
  }

  // ---- the crossed registration, on real devices ---------------------------

  /** Two clean volumes as their devices show them, and a file of the first: what PG_VOLUME_ADD and
      PG_CLAIM read before they accept. */
  datatype Setting = Setting(r1: int, p1: int, plain1: Option<Device>, raw1: Option<Device>, shape1: Shape,
                             r2: int, p2: int, plain2: Option<Device>, raw2: Option<Device>, shape2: Shape,
                             rec: u64, seqNo: nat, file: Derived)

  ghost predicate Real(z: Setting) {
    && z.r1 != z.r2 && z.p1 != z.p2
    && Probes(z.plain1, z.raw1, z.r1 == z.p1, Probed(z.shape1, false)) && Probes(z.plain2, z.raw2, z.r2 == z.p2, Probed(z.shape2, false))
    && Derives(z.plain1, z.shape1, z.rec, z.seqNo, z.file) && z.file.Derived? && Limit(0, z.file.size) > 0
  }

  ghost function First(z: Setting): Volume {
    Devices.NewVolume(z.r1, z.p1, z.shape1, [])
  }

  ghost function Second(z: Setting): Volume {
    Devices.NewVolume(z.r2, z.p2, z.shape2, [])
  }

  /** The module takes both volumes, whatever else is on the devices. */
  method AddBoth(z: Setting) returns (m: Module)
    requires Real(z)
    ensures fresh(m) && m.Valid() && m.Abs() == Devices.BothVolumes(First(z), Second(z))
  {
    m := new Module();
    Devices.BothAdded(z.r1, z.p1, z.shape1, [], z.r2, z.p2, z.shape2);
    var r;
    ghost var p;
    r, p := m.VolumeAdd(AddArgs(z.r1, z.p1, 0, []), z.plain1, z.raw1);
    ProbesUnique(z.plain1, z.raw1, z.r1 == z.p1, p, Probed(z.shape1, false));
    r, p := m.VolumeAdd(AddArgs(z.r2, z.p2, 0, []), z.plain2, z.raw2);
    ProbesUnique(z.plain2, z.raw2, z.r2 == z.p2, p, Probed(z.shape2, false));
  }

  /** And the claim. */
  method Register(z: Setting) returns (m: Module)
    requires Real(z)
    ensures fresh(m) && m.Valid() && Sound(z.file, z.shape1.sectors)
    ensures m.Abs() == Devices.SetUp(First(z), Second(z), Devices.FreshClaim(z.rec, z.seqNo, z.file))
  {
    m := AddBoth(z);
    Devices.FileClaimed(First(z), Second(z), z.rec, z.seqNo, z.file);
    var r;
    ghost var d;
    r, d := m.ClaimFile(1, 0, z.rec, z.seqNo, z.plain1);
    DerivesUnique(z.plain1, z.shape1, z.rec, z.seqNo, d, z.file);
  }

  /** And view B of the second volume. */
  method LoadView(z: Setting) returns (m: Module)
    requires Real(z)
    ensures fresh(m) && m.Valid() && Sound(z.file, z.shape1.sectors)
    ensures var s := Devices.SetUp(First(z), Second(z), Devices.FreshClaim(z.rec, z.seqNo, z.file));
            m.Abs() == s.(volumes := s.volumes[1 := Second(z).(view := ViewB, viewTables := 1)], views := map[0 := Table(1, z.r2, ViewB, false)])
  {
    m := Register(z);
    var r := m.ViewCtr(0, 2, ViewB, false, true);
  }

  /** So where the second's raw device is the first's plaintext device, that view reads any sector of the
      claimed file. */
  method CrossedRun(z: Setting, x: u64) returns (m: Module, o: Outcome)
    requires Real(z) && z.r2 == z.p1 && x in z.file.file
    ensures m.Valid() && |m.events| > 0 && o == Remap(z.p1, x, 1)
    ensures Devices.Breach(m.past, m.events, |m.events| - 1, 0, x, z.r1, z.p1, z.r2, z.p2)
  {
    m := LoadView(z);
    o := m.ViewMap(0, x, 1, false);
  }
}
