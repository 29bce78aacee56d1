/** Safety of the protected views over every run of the abstract machine. */
module Isolation {
  import opened Words
  import opened Extents
  import opened Views

  // ---- runs ----------------------------------------------------------------

  datatype Event =
    | EvVolumeAdd(args: AddArgs, probe: Probe)
    | EvClaim(volId: int, format: int, rec: u64, seqNo: int, derived: Derived)
    | EvGrow(id: int, derived: Derived)
    | EvCrossCheck(id: int, ranges: seq<UserRange>)
    | EvRelease(id: int)
    | EvVolumeRemove(id: int)
    | EvImageCtr(t: nat, id: int, len: u64, writable: bool, gate: bool)
    | EvImageDtr(t: nat)
    | EvImageMap(t: nat, lsec: u64, count: u64, write: bool, out: Outcome)
    | EvViewCtr(t: nat, id: int, mode: View, writable: bool, found: bool)
    | EvViewDtr(t: nat)
    | EvViewMap(t: nat, sector: u64, count: u64, readahead: bool, out: Outcome)

  /** Claims name live volumes, tables name live claims and volumes. */
  ghost predicate Linked(s: State) {
    && |s.volumes| == MAX_VOLUMES && |s.claims| == MAX_CLAIMS
    && (forall i :: 0 <= i < |s.claims| && s.claims[i].Live? ==>
          0 <= s.claims[i].vol < |s.volumes| && s.volumes[s.claims[i].vol].Volume?)
    && (forall t :: t in s.images ==> 0 <= s.images[t].claim < |s.claims| && s.claims[s.images[t].claim].Live?)
    && (forall t :: t in s.views ==> 0 <= s.views[t].vol < |s.volumes| && s.volumes[s.views[t].vol].Volume?)
  }

  /** What the derivation that answers an event guarantees. */
  ghost predicate SoundFor(s: State, vol: int, d: Derived) {
    0 <= vol < |s.volumes| && s.volumes[vol].Volume? ==> Sound(d, s.volumes[vol].shape.sectors)
  }

  ghost predicate Step(s: State, e: Event, s': State) {
    Linked(s) &&
    match e
    case EvVolumeAdd(args, probe) => s' == VolumeAdd(s, args, probe).0
    case EvClaim(volId, format, rec, seqNo, d) =>
      SoundFor(s, volId - 1, d) && s' == MakeClaim(s, volId, format, rec, seqNo, d).0
    case EvGrow(id, d) =>
      (ClaimLive(s, id) ==> SoundFor(s, s.claims[id - 1].vol, d)) && s' == Grow(s, id, d).0
    case EvCrossCheck(id, ranges) => s' == CrossCheck(s, id, ranges).0
    case EvRelease(id) => s' == Release(s, id).0
    case EvVolumeRemove(id) => s' == VolumeRemove(s, id).0
    case EvImageCtr(t, id, len, writable, gate) => t !in s.images && s' == ImageCtr(s, t, id, len, writable, gate).0
    case EvImageDtr(t) => t in s.images && s' == ImageDtr(s, t)
    case EvImageMap(t, lsec, count, write, out) =>
      t in s.images && ImageOutcome(s, t, lsec, count, write, out) && s' == ImageMap(s, t, out)
    case EvViewCtr(t, id, mode, writable, found) =>
      t !in s.views && mode != NoView && s' == ViewCtr(s, t, id, mode, writable, found).0
    case EvViewDtr(t) => t in s.views && s' == ViewDtr(s, t)
    case EvViewMap(t, sector, count, readahead, out) =>
      t in s.views && ViewOutcome(s, t, sector, count, out) && s' == ViewMap(s, t, readahead, out)
  }

  ghost predicate Run(states: seq<State>, events: seq<Event>) {
    && |states| == |events| + 1
    && states[0] == Initial()
    && forall k :: 0 <= k < |events| ==> StepHolds(states, events, k)
  }

  ghost predicate StepHolds(states: seq<State>, events: seq<Event>, k: int)
    requires |states| == |events| + 1 && 0 <= k < |events|
  {
    Step(states[k], events[k], states[k + 1])
  }

  // ---- the invariant -------------------------------------------------------

  ghost function ImagesOf(images: map<nat, Image>, i: int): set<nat> {
    set t | t in images && images[t].claim == i
  }

  ghost function ViewsOf(views: map<nat, Table>, i: int): set<nat> {
    set t | t in views && views[t].vol == i
  }

  lemma {:induction false} ImagesAdd(m: map<nat, Image>, t: nat, x: Image, i: int)
    requires t !in m
    ensures |ImagesOf(m[t := x], i)| == |ImagesOf(m, i)| + if i == x.claim then 1 else 0
  {
    assert ImagesOf(m[t := x], i) == if i == x.claim then ImagesOf(m, i) + {t} else ImagesOf(m, i);
  }

  lemma {:induction false} ImagesRemove(m: map<nat, Image>, t: nat, i: int)
    requires t in m
    ensures |ImagesOf(m - {t}, i)| == |ImagesOf(m, i)| - if i == m[t].claim then 1 else 0
  {
    var n := m - {t};
    assert n[t := m[t]] == m;
    ImagesAdd(n, t, m[t], i);
  }

  lemma {:induction false} ViewsAdd(m: map<nat, Table>, t: nat, x: Table, i: int)
    requires t !in m
    ensures |ViewsOf(m[t := x], i)| == |ViewsOf(m, i)| + if i == x.vol then 1 else 0
  {
    assert ViewsOf(m[t := x], i) == if i == x.vol then ViewsOf(m, i) + {t} else ViewsOf(m, i);
  }

  lemma {:induction false} ViewsRemove(m: map<nat, Table>, t: nat, i: int)
    requires t in m
    ensures |ViewsOf(m - {t}, i)| == |ViewsOf(m, i)| - if i == m[t].vol then 1 else 0
  {
    var n := m - {t};
    assert n[t := m[t]] == m;
    ViewsAdd(n, t, m[t], i);
  }

  /** One live claim: a usable, repeat-free map inside the volume, clear of the reserved ranges. */
  ghost predicate ClaimFit(c: ClaimState, v: Volume)
    requires c.Live? && v.Volume?
  {
    && 0 < c.limit && c.DataSectors() <= |c.file|
    && NoRepeat(c.file)
    && (forall i :: 0 <= i < |c.file| ==> 0 <= c.file[i] < v.shape.sectors)
    && !Touches(c.file, v.reserved)
    && !(c.checked && c.refused)
    && (v.ReadOnly() ==> c.readonly)
  }

  ghost predicate ClaimsFit(s: State)
    requires Linked(s)
  {
    forall i :: 0 <= i < |s.claims| && s.claims[i].Live? ==> ClaimFit(s.claims[i], s.volumes[s.claims[i].vol])
  }

  /** Two claims on one volume are different files and share no sector. */
  ghost predicate Apart(c: ClaimState, d: ClaimState) {
    c.Live? && d.Live? && c.vol == d.vol ==> c.rec != d.rec && !Common(c.file, d.file)
  }

  ghost predicate ClaimsApart(cs: seq<ClaimState>) {
    forall i, j :: 0 <= i < |cs| && 0 <= j < |cs| && i != j ==> Apart(cs[i], cs[j])
  }

  /** Reference counts are exact. */
  ghost predicate Counted(s: State)
    requires Linked(s)
  {
    && (forall i :: 0 <= i < |s.claims| && s.claims[i].Live? ==> s.claims[i].imageTables == |ImagesOf(s.images, i)|)
    && (forall i :: 0 <= i < |s.volumes| && s.volumes[i].Volume? ==> s.volumes[i].viewTables == |ViewsOf(s.views, i)|)
  }

  ghost predicate ImageFit(s: State, x: Image)
    requires Linked(s) && 0 <= x.claim < |s.claims| && s.claims[x.claim].Live?
  {
    var c := s.claims[x.claim];
    x.len <= c.limit && x.dev == s.volumes[c.vol].plain
  }

  ghost predicate ViewFit(v: Volume, x: Table)
    requires v.Volume?
  {
    && x.mode != NoView && x.mode == v.view
    && x.dev == (if x.mode == ViewB then v.raw else v.plain)
    && (v.ReadOnly() ==> !x.writable)
    && (v.dirty ==> x.mode == ViewC)
  }

  ghost predicate TablesFit(s: State)
    requires Linked(s)
  {
    && (forall t :: t in s.images ==> ImageFit(s, s.images[t]))
    && (forall t :: t in s.views ==> ViewFit(s.volumes[s.views[t].vol], s.views[t]))
    && (forall i :: 0 <= i < |s.volumes| && s.volumes[i].Volume? ==> (s.volumes[i].view == NoView <==> s.volumes[i].viewTables == 0))
  }

  ghost predicate Inv(s: State) {
    Linked(s) && ClaimsFit(s) && ClaimsApart(s.claims) && Counted(s) && TablesFit(s)
  }

  lemma {:induction false} InvInitial()
    ensures Inv(Initial())
  {
    var s := Initial();
    assert s.images == map[] && s.views == map[];
  }

  // ---- preservation, event by event ----------------------------------------

  lemma {:induction false} NoViewsOf(s: State, i: int)
    requires Linked(s) && 0 <= i < |s.volumes| && s.volumes[i].FreeVolume?
    ensures ViewsOf(s.views, i) == {}
  {
  }

  lemma {:induction false} InvVolumeAdd(s: State, a: AddArgs, p: Probe)
    requires Inv(s)
    ensures Inv(VolumeAdd(s, a, p).0)
  {
    var s' := VolumeAdd(s, a, p).0;
    if s' != s {
      var k := FirstFreeVolume(s.volumes, 0);
      NoViewsOf(s, k);
    }
  }

  lemma {:induction false} NoImagesOf(s: State, i: int)
    requires Linked(s) && 0 <= i < |s.claims| && s.claims[i].FreeClaim?
    ensures ImagesOf(s.images, i) == {}
  {
  }

  /** No conflict means no reserved sector and no sector of another claim on the volume. */
  lemma {:induction false} ConflictFree(s: State, vol: int, self: int, file: seq<int>)
    requires 0 <= vol < |s.volumes| && s.volumes[vol].Volume? && Conflict(s, vol, self, file) == NoError
    ensures !Touches(file, s.volumes[vol].reserved)
    ensures forall i :: 0 <= i < |s.claims| && i != self && s.claims[i].Live? && s.claims[i].vol == vol ==> !Common(file, s.claims[i].file)
  {
    forall i | 0 <= i < |s.claims| && i != self && s.claims[i].Live? && s.claims[i].vol == vol
      ensures !Common(file, s.claims[i].file)
    {
      assert !Collides(s, vol, self, file, i);
    }
  }

  lemma {:induction false} ApartReplace(cs: seq<ClaimState>, k: int, c: ClaimState)
    requires ClaimsApart(cs) && 0 <= k < |cs|
    requires forall i :: 0 <= i < |cs| && i != k ==> Apart(c, cs[i]) && Apart(cs[i], c)
    ensures ClaimsApart(cs[k := c])
  {
  }

  /** A record with the same identity and map is as far from the others as before. */
  lemma {:induction false} ApartSame(cs: seq<ClaimState>, k: int, c: ClaimState)
    requires ClaimsApart(cs) && 0 <= k < |cs| && cs[k].Live? && c.Live?
    requires c.vol == cs[k].vol && c.rec == cs[k].rec && c.file == cs[k].file
    ensures ClaimsApart(cs[k := c])
  {
    forall i | 0 <= i < |cs| && i != k ensures Apart(c, cs[i]) && Apart(cs[i], c) {
      assert Apart(cs[k], cs[i]) && Apart(cs[i], cs[k]);
    }
    ApartReplace(cs, k, c);
  }

  /** Claim k changes (or appears), keeping its volume and every mapped sector's budget. */
  ghost predicate ClaimStep(s: State, s': State, k: int) {
    && Linked(s) && 0 <= k < |s.claims| && |s'.claims| == |s.claims|
    && s'.volumes == s.volumes && s'.views == s.views
    && s'.claims == s.claims[k := s'.claims[k]]
    && s'.claims[k].Live?
    && 0 <= s'.claims[k].vol < |s.volumes| && s.volumes[s'.claims[k].vol].Volume?
    && (s.claims[k].Live? ==> s'.claims[k].vol == s.claims[k].vol && s.claims[k].limit <= s'.claims[k].limit)
  }

  /** The images side of a claim step: every image kept, or added over claim k within its limit. */
  ghost predicate ImagesStep(s: State, s': State, k: int)
    requires ClaimStep(s, s', k)
  {
    && (forall t :: t in s'.images ==>
          || (t in s.images && s'.images[t] == s.images[t])
          || (s'.images[t].claim == k && s'.images[t].len <= s'.claims[k].limit
              && s'.images[t].dev == s.volumes[s'.claims[k].vol].plain))
    && (forall i :: 0 <= i < |s.claims| && s'.claims[i].Live? ==> s'.claims[i].imageTables == |ImagesOf(s'.images, i)|)
  }

  lemma {:induction false} ClaimStepTables(s: State, s': State, k: int)
    requires ClaimStep(s, s', k) && ImagesStep(s, s', k) && TablesFit(s)
    ensures Linked(s') && TablesFit(s')
  {
    forall t | t in s'.images ensures ImageFit(s', s'.images[t]) {
      if t in s.images && s'.images[t] == s.images[t] { assert ImageFit(s, s.images[t]); }
    }
    forall t | t in s'.views ensures ViewFit(s'.volumes[s'.views[t].vol], s'.views[t]) {
      assert ViewFit(s.volumes[s.views[t].vol], s.views[t]);
    }
  }

  lemma {:induction false} ClaimStepInv(s: State, s': State, k: int)
    requires Inv(s) && ClaimStep(s, s', k) && ImagesStep(s, s', k)
    requires ClaimFit(s'.claims[k], s.volumes[s'.claims[k].vol])
    requires ClaimsApart(s'.claims)
    ensures Inv(s')
  {
    ClaimStepTables(s, s', k);
  }

  lemma {:induction false} InvClaim(s: State, volId: int, format: int, rec: u64, seqNo: int, d: Derived)
    requires Inv(s) && SoundFor(s, volId - 1, d)
    ensures Inv(MakeClaim(s, volId, format, rec, seqNo, d).0)
  {
    var s' := MakeClaim(s, volId, format, rec, seqNo, d).0;
    if s' != s {
      var k := FirstFreeClaim(s.claims, 0);
      var c := s'.claims[k];
      ConflictFree(s, volId - 1, -1, d.file);
      NoImagesOf(s, k);
      forall i | 0 <= i < |s.claims| && i != k ensures Apart(c, s.claims[i]) && Apart(s.claims[i], c) {
        assert !SameFile(s.claims[i], volId - 1, rec);
      }
      ApartReplace(s.claims, k, c);
      ClaimStepInv(s, s', k);
    }
  }

  lemma {:induction false} InvGrow(s: State, id: int, d: Derived)
    requires Inv(s) && (ClaimLive(s, id) ==> SoundFor(s, s.claims[id - 1].vol, d))
    ensures Inv(Grow(s, id, d).0)
  {
    var s' := Grow(s, id, d).0;
    if s' != s {
      var k := id - 1;
      var c, c' := s.claims[k], s'.claims[k];
      if c'.file != c.file || c'.limit != c.limit {
        ConflictFree(s, c.vol, k, c'.file);
      }
      forall i | 0 <= i < |s.claims| && i != k ensures Apart(c', s.claims[i]) && Apart(s.claims[i], c') {
        assert Apart(c, s.claims[i]) && Apart(s.claims[i], c);
      }
      ApartReplace(s.claims, k, c');
      ClaimStepInv(s, s', k);
    }
  }

  lemma {:induction false} InvCrossCheck(s: State, id: int, rs: seq<UserRange>)
    requires Inv(s)
    ensures Inv(CrossCheck(s, id, rs).0)
  {
    var s' := CrossCheck(s, id, rs).0;
    if s' != s {
      ApartSame(s.claims, id - 1, s'.claims[id - 1]);
      ClaimStepInv(s, s', id - 1);
    }
  }

  lemma {:induction false} InvRelease(s: State, id: int)
    requires Inv(s)
    ensures Inv(Release(s, id).0)
  {
    var s' := Release(s, id).0;
    if s' != s {
      assert ImagesOf(s.images, id - 1) == {};
      forall t | t in s.images ensures s.images[t].claim != id - 1 {
        assert t in ImagesOf(s.images, s.images[t].claim);
      }
      forall t | t in s'.images ensures ImageFit(s', s'.images[t]) {
        assert ImageFit(s, s.images[t]);
      }
    }
  }

  lemma {:induction false} InvVolumeRemove(s: State, id: int)
    requires Inv(s)
    ensures Inv(VolumeRemove(s, id).0)
  {
    var s' := VolumeRemove(s, id).0;
    if s' != s {
      forall i | 0 <= i < |s.claims| && s.claims[i].Live? ensures s.claims[i].vol != id - 1 {
        assert !OnVolume(s.claims[i], id);
      }
      assert ViewsOf(s.views, id - 1) == {};
      forall t | t in s.views ensures s.views[t].vol != id - 1 {
        assert t in ViewsOf(s.views, s.views[t].vol);
      }
      DropVolume(s, s', id - 1);
    }
  }

  lemma {:induction false} DropVolume(s: State, s': State, k: int)
    requires Inv(s) && 0 <= k < |s.volumes| && s' == s.(volumes := s.volumes[k := FreeVolume])
    requires forall i :: 0 <= i < |s.claims| && s.claims[i].Live? ==> s.claims[i].vol != k
    requires forall t :: t in s.views ==> s.views[t].vol != k
    ensures Inv(s')
  {
    assert TablesFit(s') by {
      forall t | t in s'.images ensures ImageFit(s', s'.images[t]) {
        assert ImageFit(s, s.images[t]);
      }
    }
  }

  lemma {:induction false} InvImageCtr(s: State, t: nat, id: int, len: u64, writable: bool, gate: bool)
    requires Inv(s) && t !in s.images
    ensures Inv(ImageCtr(s, t, id, len, writable, gate).0)
  {
    var s' := ImageCtr(s, t, id, len, writable, gate).0;
    if s' != s {
      var k := id - 1;
      forall i | 0 <= i < |s.claims| && s'.claims[i].Live? ensures s'.claims[i].imageTables == |ImagesOf(s'.images, i)| {
        ImagesAdd(s.images, t, s'.images[t], i);
      }
      ApartSame(s.claims, k, s'.claims[k]);
      ClaimStepInv(s, s', k);
    }
  }

  lemma {:induction false} InvImageDtr(s: State, t: nat)
    requires Inv(s) && t in s.images
    ensures Inv(ImageDtr(s, t))
  {
    var s', k := ImageDtr(s, t), s.images[t].claim;
    forall i | 0 <= i < |s.claims| && s'.claims[i].Live? ensures s'.claims[i].imageTables == |ImagesOf(s'.images, i)| {
      ImagesRemove(s.images, t, i);
    }
    ApartSame(s.claims, k, s'.claims[k]);
    ClaimStepInv(s, s', k);
  }

  lemma {:induction false} InvImageMap(s: State, t: nat, o: Outcome)
    requires Inv(s) && t in s.images
    ensures Inv(ImageMap(s, t, o))
  {
    var s', k := ImageMap(s, t, o), s.images[t].claim;
    if s' != s {
      ApartSame(s.claims, k, s'.claims[k]);
      ClaimStepInv(s, s', k);
    }
  }

  /** A change of a volume's view bookkeeping or counters leaves the claims side alone. */
  lemma {:induction false} ReplaceVolume(s: State, s': State, k: int)
    requires Inv(s) && 0 <= k < |s.volumes| && s.volumes[k].Volume?
    requires s'.claims == s.claims && s'.images == s.images && |s'.volumes| == |s.volumes|
    requires s'.volumes == s.volumes[k := s'.volumes[k]] && s'.volumes[k].Volume?
    requires s'.volumes[k] == s.volumes[k].(view := s'.volumes[k].view, viewTables := s'.volumes[k].viewTables,
                                           guardHits := s'.volumes[k].guardHits, readaheadHits := s'.volumes[k].readaheadHits)
    requires forall t :: t in s'.views ==> 0 <= s'.views[t].vol < |s.volumes| && s.volumes[s'.views[t].vol].Volume?
    requires forall t :: t in s'.views ==> ViewFit(s'.volumes[s'.views[t].vol], s'.views[t])
    requires forall i :: 0 <= i < |s.volumes| && s.volumes[i].Volume? ==>
               s'.volumes[i].viewTables == |ViewsOf(s'.views, i)| && (s'.volumes[i].view == NoView <==> s'.volumes[i].viewTables == 0)
    ensures Inv(s')
  {
    forall i | 0 <= i < |s'.claims| && s'.claims[i].Live? ensures ClaimFit(s'.claims[i], s'.volumes[s'.claims[i].vol]) {
      assert ClaimFit(s.claims[i], s.volumes[s.claims[i].vol]);
    }
    forall u | u in s'.images ensures ImageFit(s', s'.images[u]) {
      assert ImageFit(s, s.images[u]);
    }
  }

  lemma {:induction false} InvViewCtr(s: State, t: nat, id: int, mode: View, writable: bool, found: bool)
    requires Inv(s) && t !in s.views && mode != NoView
    ensures Inv(ViewCtr(s, t, id, mode, writable, found).0)
  {
    var s' := ViewCtr(s, t, id, mode, writable, found).0;
    if s' != s {
      var k := id - 1;
      forall i | 0 <= i < |s.volumes| && s.volumes[i].Volume?
        ensures s'.volumes[i].viewTables == |ViewsOf(s'.views, i)| && (s'.volumes[i].view == NoView <==> s'.volumes[i].viewTables == 0)
      {
        ViewsAdd(s.views, t, s'.views[t], i);
      }
      forall u | u in s'.views ensures ViewFit(s'.volumes[s'.views[u].vol], s'.views[u]) {
        if u != t {
          assert ViewFit(s.volumes[s.views[u].vol], s.views[u]);
        }
      }
      ReplaceVolume(s, s', k);
    }
  }

  lemma {:induction false} InvViewDtr(s: State, t: nat)
    requires Inv(s) && t in s.views
    ensures Inv(ViewDtr(s, t))
  {
    var s', k := ViewDtr(s, t), s.views[t].vol;
    forall i | 0 <= i < |s.volumes| && s.volumes[i].Volume?
      ensures s'.volumes[i].viewTables == |ViewsOf(s'.views, i)| && (s'.volumes[i].view == NoView <==> s'.volumes[i].viewTables == 0)
    {
      ViewsRemove(s.views, t, i);
    }
    forall u | u in s'.views ensures ViewFit(s'.volumes[s'.views[u].vol], s'.views[u]) {
      assert ViewFit(s.volumes[s.views[u].vol], s.views[u]);
      if s.views[u].vol == k {
        assert u in ViewsOf(s'.views, k);
      }
    }
    ReplaceVolume(s, s', k);
  }

  lemma {:induction false} InvViewMap(s: State, t: nat, readahead: bool, o: Outcome)
    requires Inv(s) && t in s.views
    ensures Inv(ViewMap(s, t, readahead, o))
  {
    var s', k := ViewMap(s, t, readahead, o), s.views[t].vol;
    if s' != s {
      forall u | u in s'.views ensures ViewFit(s'.volumes[s'.views[u].vol], s'.views[u]) {
        assert ViewFit(s.volumes[s.views[u].vol], s.views[u]);
      }
      ReplaceVolume(s, s', k);
    }
  }

  lemma {:induction false} InvStep(s: State, e: Event, s': State)
    requires Inv(s) && Step(s, e, s')
    ensures Inv(s')
  {
    match e
    case EvVolumeAdd(args, probe) => InvVolumeAdd(s, args, probe);
    case EvClaim(volId, format, rec, seqNo, d) => InvClaim(s, volId, format, rec, seqNo, d);
    case EvGrow(id, d) => InvGrow(s, id, d);
    case EvCrossCheck(id, ranges) => InvCrossCheck(s, id, ranges);
    case EvRelease(id) => InvRelease(s, id);
    case EvVolumeRemove(id) => InvVolumeRemove(s, id);
    case EvImageCtr(t, id, len, writable, gate) => InvImageCtr(s, t, id, len, writable, gate);
    case EvImageDtr(t) => InvImageDtr(s, t);
    case EvImageMap(t, lsec, count, write, out) => InvImageMap(s, t, out);
    case EvViewCtr(t, id, mode, writable, found) => InvViewCtr(s, t, id, mode, writable, found);
    case EvViewDtr(t) => InvViewDtr(s, t);
    case EvViewMap(t, sector, count, readahead, out) => InvViewMap(s, t, readahead, out);
  }

  /** Every state of every run satisfies the invariant. */
  lemma {:induction false} RunInv(states: seq<State>, events: seq<Event>, k: nat)
    requires Run(states, events) && k < |states|
    ensures Inv(states[k])
  {
    if k == 0 {
      InvInitial();
    } else {
      RunInv(states, events, k - 1);
      assert StepHolds(states, events, k - 1);
      InvStep(states[k - 1], events[k - 1], states[k]);
    }
  }
}
