/** What every run of the protected views guarantees, from the invariant of Isolation. */
module Guarantees {
  import opened Words
  import opened Views
  import opened Isolation
  import Claim

  /** One step of a run, with the invariant on both sides. */
  lemma {:induction false} StepAt(states: seq<State>, events: seq<Event>, k: nat)
    requires Run(states, events) && k < |events|
    ensures Inv(states[k]) && Step(states[k], events[k], states[k + 1]) && Inv(states[k + 1])
  {
    RunInv(states, events, k);
    RunInv(states, events, k + 1);
    assert StepHolds(states, events, k);
  }

  // ---- isolation -----------------------------------------------------------

  /** Sector x belongs to live claim i. */
  ghost predicate Owns(s: State, i: int, x: int) {
    0 <= i < |s.claims| && s.claims[i].Live? && x in s.claims[i].file
  }

  /** x is the claim's own sector: inside the volume, not reserved, no other claim's. */
  ghost predicate OwnSector(s: State, i: int, x: int)
    requires Linked(s) && 0 <= i < |s.claims| && s.claims[i].Live?
  {
    var c := s.claims[i];
    && x in c.file
    && 0 <= x < s.volumes[c.vol].shape.sectors
    && x !in s.volumes[c.vol].reserved
    && forall d :: d != i && Owns(s, d, x) ==> s.claims[d].vol != c.vol
  }

  /** What view A of claim i did with a request: it reached the sectors the file maps there, in
      order, on the plaintext device, and the claim's state allowed it. */
  ghost predicate ReachesOwn(s: State, i: int, lsec: int, count: int, write: bool, o: Outcome)
    requires Linked(s) && 0 <= i < |s.claims| && s.claims[i].Live? && o.Remap?
  {
    var c := s.claims[i];
    && !c.refused && !(write && c.readonly)
    && o.dev == s.volumes[c.vol].plain
    && 0 < o.count <= count && 0 <= lsec && lsec + o.count <= |c.file|
    && (forall l :: lsec <= l < lsec + o.count ==> c.file[l] == o.sector + (l - lsec))
    && (forall x :: o.sector <= x < o.sector + o.count ==> OwnSector(s, i, x))
  }

  lemma {:induction false} SectorOwned(s: State, i: int, x: int)
    requires Inv(s) && Owns(s, i, x)
    ensures OwnSector(s, i, x)
  {
    var c := s.claims[i];
    assert ClaimFit(c, s.volumes[c.vol]);
    forall d | d != i && Owns(s, d, x) ensures s.claims[d].vol != c.vol {
      assert Apart(c, s.claims[d]);
    }
  }

  lemma {:induction false} ImageReaches(s: State, t: nat, lsec: u64, count: u64, write: bool, o: Outcome)
    requires Inv(s) && t in s.images && ImageOutcome(s, t, lsec, count, write, o) && o.Remap?
    ensures ReachesOwn(s, s.images[t].claim, lsec, count, write, o)
  {
    var i := s.images[t].claim;
    var c := s.claims[i];
    assert ImageFit(s, s.images[t]);
    var left :| Claim.RunAt(c.file, lsec, o.sector, left) && o.count == if count > left then left else count;
    forall x | o.sector <= x < o.sector + o.count ensures OwnSector(s, i, x) {
      assert c.file[lsec + (x - o.sector)] == x;
      SectorOwned(s, i, x);
    }
  }

  /** In every run, a request through view A reaches only the sectors its claim maps there: never a
      reserved sector, never another claim's; never as a write to a read-only claim, and not at all
      once the claim is refused. */
  lemma {:induction false} ImageIsolation(states: seq<State>, events: seq<Event>, k: nat)
    requires Run(states, events) && k < |events| && events[k].EvImageMap? && events[k].out.Remap?
    ensures Linked(states[k]) && events[k].t in states[k].images
    ensures ReachesOwn(states[k], states[k].images[events[k].t].claim, events[k].lsec, events[k].count, events[k].write, events[k].out)
  {
    StepAt(states, events, k);
    var e := events[k];
    ImageReaches(states[k], e.t, e.lsec, e.count, e.write, e.out);
  }

  /** In every run, a request a view B or C passes on touches no sector of any live claim on the
      volume, whatever that claim's state. */
  lemma {:induction false} ViewIsolation(states: seq<State>, events: seq<Event>, k: nat, i: int, x: int)
    requires Run(states, events) && k < |events| && events[k].EvViewMap? && events[k].out.Remap?
    requires Owns(states[k], i, x) && events[k].t in states[k].views && states[k].claims[i].vol == states[k].views[events[k].t].vol
    ensures !(events[k].out.sector <= x < events[k].out.sector + events[k].out.count)
    ensures events[k].out.dev == states[k].views[events[k].t].dev && events[k].out.sector == events[k].sector
  {
    StepAt(states, events, k);
    var s, e := states[k], events[k];
    assert !HitsClaim(s, s.views[e.t].vol, e.sector, e.count, i);
  }

  /** The volume behind a live table. */
  ghost function TargetVolume(s: State, e: Event): int
    requires Linked(s) && ((e.EvImageMap? && e.t in s.images) || (e.EvViewMap? && e.t in s.views))
  {
    if e.EvImageMap? then s.claims[s.images[e.t].claim].vol else s.views[e.t].vol
  }

  /** In any run, a claimed sector of a volume is reached through that volume's own tables only by a
      view-A table of that very claim. Devices says what other volumes' tables can reach. */
  lemma {:induction false} OnlyThroughViewA(states: seq<State>, events: seq<Event>, k: nat, i: int, x: int)
    requires Run(states, events) && k < |events|
    requires (events[k].EvImageMap? || events[k].EvViewMap?) && events[k].out.Remap?
    requires events[k].out.sector <= x < events[k].out.sector + events[k].out.count
    requires Owns(states[k], i, x)
    ensures Linked(states[k]) && (events[k].EvImageMap? ==> events[k].t in states[k].images)
    ensures events[k].EvViewMap? ==> events[k].t in states[k].views
    ensures TargetVolume(states[k], events[k]) == states[k].claims[i].vol ==>
              events[k].EvImageMap? && states[k].images[events[k].t].claim == i
  {
    StepAt(states, events, k);
    var s, e := states[k], events[k];
    if TargetVolume(s, e) == s.claims[i].vol {
      if e.EvViewMap? {
        ViewIsolation(states, events, k, i, x);
      } else {
        ImageIsolation(states, events, k);
        assert OwnSector(s, s.images[e.t].claim, x);
      }
    }
  }

  // ---- what one step may do to a claim -------------------------------------

  /** The identity of a claim: which file of which volume, in which format. */
  ghost predicate SameClaim(c: ClaimState, d: ClaimState) {
    && c.Live? && d.Live?
    && d.vol == c.vol && d.rec == c.rec && d.seqNo == c.seqNo && d.format == c.format
  }

  /** Nothing mapped moves, the limit does not shrink, refusals stick. */
  ghost predicate Extends(c: ClaimState, d: ClaimState) {
    && SameClaim(c, d)
    && c.file <= d.file && c.limit <= d.limit
    && (c.readonly ==> d.readonly) && (c.refused ==> d.refused)
  }

  /** The event is a cross-check of claim i whose list agrees with the map. */
  ghost predicate Agreement(e: Event, i: int, c: ClaimState) {
    c.Live? && e.EvCrossCheck? && e.id == i + 1 && Agrees(e.ranges, c.file, c.DataSectors())
  }

  ghost predicate SameMap(c: ClaimState, d: ClaimState) {
    c.Live? && d.Live? && c.file == d.file && c.limit == d.limit && c.format == d.format
  }

  /** CHECKED after a step was CHECKED before it for the same map, or the step showed agreement. */
  ghost predicate CheckedBy(c: ClaimState, d: ClaimState, e: Event, i: int) {
    d.Live? && d.checked ==> SameMap(c, d) && (c.checked || Agreement(e, i, c))
  }

  ghost predicate ClaimMoves(s: State, e: Event, s': State, i: int)
    requires 0 <= i < |s.claims|
  {
    && |s'.claims| == |s.claims|
    && (s.claims[i].Live? ==> Extends(s.claims[i], s'.claims[i]) || (s'.claims[i].FreeClaim? && ImagesOf(s.images, i) == {}))
    && CheckedBy(s.claims[i], s'.claims[i], e, i)
  }

  lemma {:induction false} GrowMoves(s: State, id: int, d: Derived, i: int)
    requires Linked(s) && 0 <= i < |s.claims|
    ensures ClaimMoves(s, EvGrow(id, d), Grow(s, id, d).0, i)
  {
    if ClaimLive(s, id) && id == i + 1 && !s.claims[i].refused {
      match GrowthOf(s, i, d)
      case Moved(error) =>
      case Blocked(error) =>
      case Accepted(file, limit) =>
    }
  }

  lemma {:induction false} CrossCheckMoves(s: State, id: int, rs: seq<UserRange>, i: int)
    requires Linked(s) && 0 <= i < |s.claims|
    ensures ClaimMoves(s, EvCrossCheck(id, rs), CrossCheck(s, id, rs).0, i)
  {
  }

  lemma {:induction false} ClaimAcross(s: State, e: Event, s': State, i: int)
    requires Linked(s) && Counted(s) && Step(s, e, s') && 0 <= i < |s.claims|
    ensures ClaimMoves(s, e, s', i)
  {
    match e
    case EvGrow(id, d) => GrowMoves(s, id, d, i);
    case EvCrossCheck(id, ranges) => CrossCheckMoves(s, id, ranges, i);
    case EvRelease(id) =>
    case EvClaim(volId, format, rec, seqNo, d) => NewMoves(s, volId, format, rec, seqNo, d, i);
    case _ => QuietMoves(s, e, s', i);
  }

  lemma {:induction false} NewMoves(s: State, volId: int, format: int, rec: u64, seqNo: int, d: Derived, i: int)
    requires Linked(s) && 0 <= i < |s.claims|
    ensures ClaimMoves(s, EvClaim(volId, format, rec, seqNo, d), MakeClaim(s, volId, format, rec, seqNo, d).0, i)
  {
  }

  lemma {:induction false} QuietMoves(s: State, e: Event, s': State, i: int)
    requires Linked(s) && Step(s, e, s') && 0 <= i < |s.claims|
    requires !e.EvGrow? && !e.EvCrossCheck? && !e.EvRelease? && !e.EvClaim?
    ensures ClaimMoves(s, e, s', i)
  {
    if e.EvImageCtr? || e.EvImageDtr? || e.EvImageMap? {
      ImageMoves(s, e, s', i);
    } else {
      assert s'.claims == s.claims;
    }
  }

  /** Constructing, destroying and using view A changes only counts. */
  lemma {:induction false} ImageMoves(s: State, e: Event, s': State, i: int)
    requires Linked(s) && Step(s, e, s') && 0 <= i < |s.claims| && (e.EvImageCtr? || e.EvImageDtr? || e.EvImageMap?)
    ensures ClaimMoves(s, e, s', i)
  {
    match e
    case EvImageCtr(t, id, len, writable, gate) =>
    case EvImageDtr(t) =>
    case EvImageMap(t, lsec, count, write, out) =>
  }

  /** A live table stays over the same claim, on the same device, with the same length. */
  lemma {:induction false} ImageAcross(s: State, e: Event, s': State, t: nat)
    requires Linked(s) && Step(s, e, s') && t in s.images && t in s'.images
    ensures s'.images[t] == s.images[t]
  {
  }

  // ---- stability -----------------------------------------------------------

  ghost predicate ImageThroughout(states: seq<State>, t: nat, j: nat, k: nat) {
    j <= k < |states| && forall m :: j <= m <= k ==> t in states[m].images
  }

  /** Table t over claim i is the one it was, and the claim kept or extended its map. */
  ghost predicate Stable(s: State, s': State, t: nat) {
    && t in s.images && t in s'.images && s'.images[t] == s.images[t]
    && var i := s.images[t].claim;
       && 0 <= i < |s.claims| == |s'.claims|
       && Extends(s.claims[i], s'.claims[i])
  }

  lemma {:induction false} StableStep(s: State, e: Event, s': State, t: nat)
    requires Inv(s) && Step(s, e, s') && t in s.images && t in s'.images
    ensures Stable(s, s', t)
  {
    ImageAcross(s, e, s', t);
    ClaimAcross(s, e, s', s.images[t].claim);
    assert t in ImagesOf(s.images, s.images[t].claim);
  }

  lemma {:induction false} ImageWithin(s: State, t: nat)
    requires Inv(s) && t in s.images
    ensures var c := s.claims[s.images[t].claim]; s.images[t].len <= c.limit <= |c.file|
  {
    var c := s.claims[s.images[t].claim];
    assert ImageFit(s, s.images[t]) && ClaimFit(c, s.volumes[c.vol]);
  }

  lemma {:induction false} StableAt(states: seq<State>, events: seq<Event>, t: nat, k: nat)
    requires Run(states, events) && k < |events| && t in states[k].images && t in states[k + 1].images
    ensures Stable(states[k], states[k + 1], t)
  {
    StepAt(states, events, k);
    StableStep(states[k], events[k], states[k + 1], t);
  }

  lemma {:induction false} StableThroughout(states: seq<State>, events: seq<Event>, t: nat, j: nat, k: nat)
    requires Run(states, events) && ImageThroughout(states, t, j, k)
    ensures Stable(states[j], states[k], t)
    decreases k - j
  {
    if j == k {
      RunInv(states, events, j);
    } else {
      StableThroughout(states, events, t, j, k - 1);
      StableAt(states, events, t, k - 1);
    }
  }

  /** While a view-A table is live its claim is never released or replaced, each of its sectors
      keeps its place through any growth, limit and refusals only grow, and its length stays within
      the limit, which the mapped sectors cover. */
  lemma {:induction false} Stability(states: seq<State>, events: seq<Event>, t: nat, j: nat, k: nat)
    requires Run(states, events) && ImageThroughout(states, t, j, k)
    ensures Stable(states[j], states[k], t)
    ensures var i, len := states[j].images[t].claim, states[j].images[t].len;
            && len <= states[j].claims[i].limit <= |states[j].claims[i].file|
            && len <= states[k].claims[i].limit <= |states[k].claims[i].file|
            && states[k].claims[i].file[..len] == states[j].claims[i].file[..len]
  {
    StableThroughout(states, events, t, j, k);
    RunInv(states, events, k);
    RunInv(states, events, j);
    ImageWithin(states[j], t);
    ImageWithin(states[k], t);
  }

  /** Where view A sent logical sector l in a run's event. */
  ghost predicate Sends(e: Event, t: nat, l: int) {
    e.EvImageMap? && e.t == t && e.out.Remap? && e.lsec <= l < e.lsec + e.out.count
  }

  lemma {:induction false} SentTo(states: seq<State>, events: seq<Event>, t: nat, k: nat, l: int)
    requires Run(states, events) && k < |events| && Sends(events[k], t, l)
    ensures Linked(states[k]) && t in states[k].images
    ensures var i := states[k].images[t].claim;
            && l < |states[k].claims[i].file|
            && events[k].out.sector + (l - events[k].lsec) == states[k].claims[i].file[l]
            && events[k].out.dev == states[k].images[t].dev
  {
    ImageIsolation(states, events, k);
    RunInv(states, events, k);
    assert ImageFit(states[k], states[k].images[t]);
  }

  /** Hence two requests for one logical sector of a live table, wherever they start, send it to one
      physical sector. */
  lemma {:induction false} SameTranslation(states: seq<State>, events: seq<Event>, t: nat, j: nat, k: nat, l: int)
    requires Run(states, events) && j <= k < |events| && ImageThroughout(states, t, j, k)
    requires Sends(events[j], t, l) && Sends(events[k], t, l)
    ensures events[j].out.sector + (l - events[j].lsec) == events[k].out.sector + (l - events[k].lsec)
    ensures events[j].out.dev == events[k].out.dev
  {
    SentTo(states, events, t, j, l);
    SentTo(states, events, t, k, l);
    StableThroughout(states, events, t, j, k);
  }

  // ---- the cross-check -----------------------------------------------------

  lemma {:induction false} MovesAt(states: seq<State>, events: seq<Event>, k: nat, i: nat)
    requires Run(states, events) && k < |events| && (i < |states[k].claims| || i < |states[k + 1].claims|)
    ensures i < |states[k].claims| && ClaimMoves(states[k], events[k], states[k + 1], i)
  {
    StepAt(states, events, k);
    ClaimAcross(states[k], events[k], states[k + 1], i);
  }

  /** CHECKED in a reachable state means a cross-check of this very claim agreed with the map and
      limit it has now, and neither has changed since. */
  lemma {:induction false} CheckedMeansAgreed(states: seq<State>, events: seq<Event>, k: nat, i: nat) returns (j: nat)
    requires Run(states, events) && k < |states|
    requires i < |states[k].claims| && states[k].claims[i].Live? && states[k].claims[i].checked
    ensures j < k && i < |states[j].claims| && Agreement(events[j], i, states[j].claims[i])
    ensures forall m :: j <= m <= k ==> i < |states[m].claims| && SameMap(states[m].claims[i], states[k].claims[i])
  {
    if k == 0 {
      assert false;
    } else {
      MovesAt(states, events, k - 1, i);
      if states[k - 1].claims[i].checked {
        j := CheckedMeansAgreed(states, events, k - 1, i);
      } else {
        j := k - 1;
      }
    }
  }

  // ---- lifecycle -----------------------------------------------------------

  /** The counts are the live tables, a checked claim is not refused, one volume's tables are all
      of one view, and a read-only volume has no writable one. */
  ghost predicate Orderly(s: State) {
    && Linked(s) && Counted(s)
    && (forall i :: 0 <= i < |s.claims| && s.claims[i].Live? ==> !(s.claims[i].checked && s.claims[i].refused))
    && (forall t, u :: t in s.views && u in s.views && s.views[t].vol == s.views[u].vol ==> s.views[t].mode == s.views[u].mode)
    && (forall t :: t in s.views && s.volumes[s.views[t].vol].ReadOnly() ==> !s.views[t].writable)
  }

  /** Every reachable state is orderly. */
  lemma {:induction false} Lifecycle(states: seq<State>, events: seq<Event>, k: nat)
    requires Run(states, events) && k < |states|
    ensures Orderly(states[k])
  {
    RunInv(states, events, k);
    var s := states[k];
    forall i | 0 <= i < |s.claims| && s.claims[i].Live? ensures !(s.claims[i].checked && s.claims[i].refused) {
      assert ClaimFit(s.claims[i], s.volumes[s.claims[i].vol]);
    }
    forall t | t in s.views ensures ViewFit(s.volumes[s.views[t].vol], s.views[t]) {
    }
  }

  /** Something still uses volume slot v. */
  ghost predicate InUse(s: State, v: int) {
    || (exists i :: 0 <= i < |s.claims| && OnVolume(s.claims[i], v + 1))
    || (exists t :: t in s.views && s.views[t].vol == v)
  }

  /** The same device pair, geometry, reserved set and access mode. */
  ghost predicate SameVolume(a: Volume, b: Volume) {
    && a.Volume? && b.Volume?
    && b.raw == a.raw && b.plain == a.plain && b.shape == a.shape && b.reserved == a.reserved
    && b.dirty == a.dirty && b.addedReadOnly == a.addedReadOnly
  }

  lemma {:induction false} InUseNotRemoved(s: State, id: int, v: int)
    requires Linked(s) && Counted(s) && 0 <= v < |s.volumes| && s.volumes[v].Volume? && InUse(s, v)
    ensures VolumeRemove(s, id).0.volumes[v] == s.volumes[v]
  {
    if t :| t in s.views && s.views[t].vol == v {
      assert t in ViewsOf(s.views, v);
    }
  }

  /** No step frees or replaces a volume under a claim or a table. */
  lemma {:induction false} VolumeAcross(s: State, e: Event, s': State, v: int)
    requires Linked(s) && Counted(s) && Step(s, e, s') && 0 <= v < |s.volumes| && InUse(s, v)
    ensures |s'.volumes| == |s.volumes| && SameVolume(s.volumes[v], s'.volumes[v])
  {
    assert s.volumes[v].Volume?;
    if e.EvVolumeRemove? {
      InUseNotRemoved(s, e.id, v);
    } else {
      VolumeKept(s, e, s', v);
    }
  }

  lemma {:induction false} VolumeKept(s: State, e: Event, s': State, v: int)
    requires Step(s, e, s') && 0 <= v < |s.volumes| && s.volumes[v].Volume? && !e.EvVolumeRemove?
    ensures |s'.volumes| == |s.volumes| && SameVolume(s.volumes[v], s'.volumes[v])
  {
    match e
    case EvVolumeAdd(args, probe) => AddKeeps(s, args, probe, v);
    case _ =>
  }

  lemma {:induction false} AddKeeps(s: State, args: AddArgs, probe: Probe, v: int)
    requires 0 <= v < |s.volumes| && s.volumes[v].Volume?
    ensures var s' := VolumeAdd(s, args, probe).0; |s'.volumes| == |s.volumes| && s'.volumes[v] == s.volumes[v]
  {
  }

  lemma {:induction false} VolumeAt(states: seq<State>, events: seq<Event>, k: nat, i: nat)
    requires Run(states, events) && k < |events| && i < |states[k].claims| && states[k].claims[i].Live?
    ensures var v := states[k].claims[i].vol;
            0 <= v < |states[k].volumes| == |states[k + 1].volumes| && SameVolume(states[k].volumes[v], states[k + 1].volumes[v])
  {
    StepAt(states, events, k);
    assert OnVolume(states[k].claims[i], states[k].claims[i].vol + 1);
    VolumeAcross(states[k], events[k], states[k + 1], states[k].claims[i].vol);
  }

  /** A claim that stays live keeps its identity, its mapped sectors and its refusals, and the
      volume under it is never replaced. */
  lemma {:induction false} ClaimPersists(states: seq<State>, events: seq<Event>, i: nat, j: nat, k: nat)
    requires Run(states, events) && j <= k < |states|
    requires forall m :: j <= m <= k ==> i < |states[m].claims| && states[m].claims[i].Live?
    ensures Extends(states[j].claims[i], states[k].claims[i])
    ensures var v := states[j].claims[i].vol;
            0 <= v < |states[j].volumes| == |states[k].volumes| && SameVolume(states[j].volumes[v], states[k].volumes[v])
    decreases k - j
  {
    if j == k {
      RunInv(states, events, j);
    } else {
      ClaimPersists(states, events, i, j, k - 1);
      MovesAt(states, events, k - 1, i);
      VolumeAt(states, events, k - 1, i);
    }
  }

  /** On a volume that is dirty or was added read-only, no write is ever passed on by view A. */
  lemma {:induction false} ReadOnlyVolume(states: seq<State>, events: seq<Event>, k: nat)
    requires Run(states, events) && k < |events| && events[k].EvImageMap? && events[k].out.Remap? && events[k].write
    ensures Linked(states[k]) && events[k].t in states[k].images
    ensures !states[k].volumes[states[k].claims[states[k].images[events[k].t].claim].vol].ReadOnly()
  {
    ImageIsolation(states, events, k);
    RunInv(states, events, k);
    var c := states[k].claims[states[k].images[events[k].t].claim];
    assert ClaimFit(c, states[k].volumes[c.vol]);
  }
}
