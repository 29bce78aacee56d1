/** What one operation means for everything after it: where the tables, claims and volumes of a reachable
    state come from, and what stops for good. */
module Lifetimes {
  import opened Words
  import opened Views
  import opened Isolation
  import opened Guarantees
  import opened Effects

  // ---- view A and the cross-check ------------------------------------------

  /** Event m built table t, over a claim that was checked, not refused, and allowed it. */
  ghost predicate Builds(s: State, e: Event, t: nat, x: Image) {
    && e.EvImageCtr? && e.t == t && e.gate && ClaimLive(s, e.id)
    && x.claim == e.id - 1 && x.len == e.len && x.writable == e.writable
    && Tabled(s.claims[e.id - 1], e.len, e.writable)
  }

  lemma {:induction false} NewImage(s: State, e: Event, s': State, t: nat)
    requires Linked(s) && Step(s, e, s') && t !in s.images && t in s'.images
    ensures Builds(s, e, t, s'.images[t])
  {
    assert e.EvImageCtr?;
    ImageExact(s, e.t, e.id, e.len, e.writable, e.gate);
  }

  lemma {:induction false} ImageAt(states: seq<State>, events: seq<Event>, k: nat, t: nat)
    requires Run(states, events) && k < |events| && t in states[k + 1].images
    ensures if t in states[k].images then states[k + 1].images[t] == states[k].images[t]
            else Builds(states[k], events[k], t, states[k + 1].images[t])
  {
    StepAt(states, events, k);
    if t in states[k].images {
      ImageAcross(states[k], events[k], states[k + 1], t);
    } else {
      NewImage(states[k], events[k], states[k + 1], t);
    }
  }

  /** Every live table of view A was built, and has been there since. */
  lemma {:induction false} ImageOrigin(states: seq<State>, events: seq<Event>, k: nat, t: nat) returns (m: nat)
    requires Run(states, events) && k < |states| && t in states[k].images
    ensures m < k && Builds(states[m], events[m], t, states[k].images[t]) && ImageThroughout(states, t, m + 1, k)
  {
    if k == 0 {
      assert false;
    } else {
      ImageAt(states, events, k - 1, t);
      if t in states[k - 1].images {
        m := ImageOrigin(states, events, k - 1, t);
      } else {
        m := k - 1;
      }
    }
  }

  /** In every run, a table of view A exists only after a cross-check of its claim agreed: on exactly the
      map and the limit the claim had when the table was built. */
  lemma {:induction false} AgreedBeforeBuilt(states: seq<State>, events: seq<Event>, k: nat, t: nat) returns (j: nat, m: nat)
    requires Run(states, events) && k < |states| && t in states[k].images
    ensures j < m < k && Builds(states[m], events[m], t, states[k].images[t]) && ImageThroughout(states, t, m + 1, k)
    ensures var i := states[k].images[t].claim;
            && 0 <= i < |states[j].claims| && i < |states[m].claims| && Agreement(events[j], i, states[j].claims[i])
            && SameMap(states[j].claims[i], states[m].claims[i])
  {
    m := ImageOrigin(states, events, k, t);
    j := CheckedMeansAgreed(states, events, m, states[k].images[t].claim);
  }

  /** So view A passes nothing on before an agreement: the sectors it reaches are those agreed on, or
      follow them in a map that grew since. */
  lemma {:induction false} AgreedBeforeUse(states: seq<State>, events: seq<Event>, k: nat) returns (j: nat, i: int)
    requires Run(states, events) && k < |events| && events[k].EvImageMap? && events[k].out.Remap?
    ensures j < k && events[k].t in states[k].images && i == states[k].images[events[k].t].claim
    ensures 0 <= i < |states[j].claims| && i < |states[k].claims| && Agreement(events[j], i, states[j].claims[i])
    ensures states[k].claims[i].Live? && states[j].claims[i].file <= states[k].claims[i].file
  {
    ImageIsolation(states, events, k);
    var t, m := events[k].t, 0;
    i := states[k].images[t].claim;
    j, m := AgreedBeforeBuilt(states, events, k, t);
    BuiltKeepsMap(states, events, m, t, states[k].images[t]);
    StableThroughout(states, events, t, m + 1, k);
  }

  /** Building a table moves no map. */
  lemma {:induction false} BuiltKeepsMap(states: seq<State>, events: seq<Event>, m: nat, t: nat, x: Image)
    requires Run(states, events) && m < |events| && Builds(states[m], events[m], t, x)
    ensures x.claim < |states[m].claims| == |states[m + 1].claims| && SameMap(states[m].claims[x.claim], states[m + 1].claims[x.claim])
  {
    StepAt(states, events, m);
    var e := events[m];
    TableMap(states[m], e.t, e.id, e.len, e.writable, e.gate, x.claim);
  }

  // ---- a claim, from its making on -----------------------------------------

  ghost predicate ClaimThroughout(states: seq<State>, i: int, j: nat, k: nat) {
    j <= k < |states| && forall m :: j <= m <= k ==> HasClaim(states[m], i)
  }

  ghost predicate HasClaim(s: State, i: int) {
    0 <= i < |s.claims| && s.claims[i].Live?
  }

  lemma {:induction false} ClaimPart(states: seq<State>, i: int, j: nat, k: nat, a: nat, b: nat)
    requires ClaimThroughout(states, i, j, k) && j <= a <= b <= k
    ensures ClaimThroughout(states, i, a, b)
  {
    forall m | a <= m <= b ensures HasClaim(states[m], i) {
    }
  }

  /** The request is one through view A of claim i. */
  ghost predicate Through(s: State, e: Event, i: int) {
    e.EvImageMap? && e.t in s.images && s.images[e.t].claim == i
  }

  /** A growth that found nothing, moved an old sector or lost data stops writes: from then until the
      claim is released none of view A is passed on. */
  lemma {:induction false} LostStopsWrites(states: seq<State>, events: seq<Event>, j: nat, k: nat)
    requires Run(states, events) && j < k < |events| && events[j].EvGrow? && ClaimLive(states[j], events[j].id)
    requires var c := states[j].claims[events[j].id - 1]; !c.refused && Lost(c, events[j].derived)
    requires ClaimThroughout(states, events[j].id - 1, j + 1, k) && Through(states[k], events[k], events[j].id - 1)
    ensures events[k].write ==> !events[k].out.Remap?
  {
    LostSets(states, events, j);
    ClaimPersists(states, events, events[j].id - 1, j + 1, k);
    if events[k].out.Remap? {
      ImageIsolation(states, events, k);
    }
  }

  lemma {:induction false} LostSets(states: seq<State>, events: seq<Event>, j: nat)
    requires Run(states, events) && j < |events| && events[j].EvGrow? && ClaimLive(states[j], events[j].id)
    requires var c := states[j].claims[events[j].id - 1]; !c.refused && Lost(c, events[j].derived)
    ensures ClaimLive(states[j + 1], events[j].id) && states[j + 1].claims[events[j].id - 1].readonly
  {
    StepAt(states, events, j);
    GrowExact(states[j], events[j].id, events[j].derived);
  }

  /** A cross-check that disagrees stops everything: from then until the claim is released no request of
      view A is passed on. */
  lemma {:induction false} DisagreementStops(states: seq<State>, events: seq<Event>, j: nat, k: nat)
    requires Run(states, events) && j < k < |events| && events[j].EvCrossCheck? && ClaimLive(states[j], events[j].id)
    requires 0 < |events[j].ranges| <= 65536
    requires var c := states[j].claims[events[j].id - 1]; !c.refused && !Agrees(events[j].ranges, c.file, c.DataSectors())
    requires ClaimThroughout(states, events[j].id - 1, j + 1, k) && Through(states[k], events[k], events[j].id - 1)
    ensures !events[k].out.Remap?
  {
    DisagreementSets(states, events, j);
    ClaimPersists(states, events, events[j].id - 1, j + 1, k);
    if events[k].out.Remap? {
      ImageIsolation(states, events, k);
    }
  }

  lemma {:induction false} DisagreementSets(states: seq<State>, events: seq<Event>, j: nat)
    requires Run(states, events) && j < |events| && events[j].EvCrossCheck? && ClaimLive(states[j], events[j].id)
    requires 0 < |events[j].ranges| <= 65536
    requires var c := states[j].claims[events[j].id - 1]; !c.refused && !Agrees(events[j].ranges, c.file, c.DataSectors())
    ensures ClaimLive(states[j + 1], events[j].id) && states[j + 1].claims[events[j].id - 1].refused
  {
    StepAt(states, events, j);
    CrossCheckExact(states[j], events[j].id, events[j].ranges);
  }

  /** The event made claim i, or grew it to the map derived. */
  ghost predicate MapFrom(e: Event, i: int, c: ClaimState) {
    && c.Live? && (e.EvClaim? || (e.EvGrow? && e.id == i + 1)) && e.derived.Derived?
    && c.file == e.derived.file && c.DataSectors() == e.derived.size / 512
  }

  lemma {:induction false} MapStep(s: State, e: Event, s': State, i: int)
    requires Inv(s) && Step(s, e, s') && Linked(s') && 0 <= i < |s'.claims| && s'.claims[i].Live?
    ensures i < |s.claims| && (SameMap(s.claims[i], s'.claims[i]) || MapFrom(e, i, s'.claims[i]))
  {
    if e.EvClaim? {
      ClaimExact(s, e.volId, e.format, e.rec, e.seqNo, e.derived);
    } else if e.EvGrow? {
      GrowMap(s, e.id, e.derived, i);
    } else {
      OtherMap(s, e, s', i);
    }
  }

  lemma {:induction false} GrowMap(s: State, id: int, d: Derived, i: int)
    requires Inv(s) && 0 <= i < |s.claims|
    ensures var s' := Grow(s, id, d).0;
            |s'.claims| == |s.claims| && (s'.claims[i].Live? ==> SameMap(s.claims[i], s'.claims[i]) || MapFrom(EvGrow(id, d), i, s'.claims[i]))
  {
    if ClaimLive(s, id) && !s.claims[id - 1].refused {
      GrowExact(s, id, d);
    }
  }

  lemma {:induction false} OtherMap(s: State, e: Event, s': State, i: int)
    requires Linked(s) && Step(s, e, s') && Linked(s') && 0 <= i < |s.claims| && s'.claims[i].Live? && !e.EvClaim? && !e.EvGrow?
    ensures SameMap(s.claims[i], s'.claims[i])
  {
    if e.EvCrossCheck? {
      CrossCheckMap(s, e.id, e.ranges, i);
    } else if e.EvImageCtr? {
      TableMap(s, e.t, e.id, e.len, e.writable, e.gate, i);
    } else if e.EvRelease? || e.EvImageDtr? || e.EvImageMap? {
      CountMap(s, e, s', i);
    } else {
      assert s'.claims == s.claims;
    }
  }

  lemma {:induction false} CountMap(s: State, e: Event, s': State, i: int)
    requires Linked(s) && Step(s, e, s') && Linked(s') && 0 <= i < |s.claims| && s'.claims[i].Live? && (e.EvRelease? || e.EvImageDtr? || e.EvImageMap?)
    ensures SameMap(s.claims[i], s'.claims[i])
  {
  }

  lemma {:induction false} CrossCheckMap(s: State, id: int, rs: seq<UserRange>, i: int)
    requires 0 <= i < |s.claims|
    ensures var s' := CrossCheck(s, id, rs).0; |s'.claims| == |s.claims| && (s'.claims[i].Live? ==> SameMap(s.claims[i], s'.claims[i]))
  {
  }

  lemma {:induction false} TableMap(s: State, t: nat, id: int, len: u64, writable: bool, gate: bool, i: int)
    requires Linked(s) && 0 <= i < |s.claims|
    ensures var s' := ImageCtr(s, t, id, len, writable, gate).0;
            |s'.claims| == |s.claims| && (s.claims[i].Live? || s'.claims[i].Live? ==> SameMap(s.claims[i], s'.claims[i]))
  {
  }

  lemma {:induction false} MapAt(states: seq<State>, events: seq<Event>, k: nat, i: int)
    requires Run(states, events) && k < |events| && 0 <= i < |states[k + 1].claims| && states[k + 1].claims[i].Live?
    ensures i < |states[k].claims| && (SameMap(states[k].claims[i], states[k + 1].claims[i]) || MapFrom(events[k], i, states[k + 1].claims[i]))
  {
    StepAt(states, events, k);
    MapStep(states[k], events[k], states[k + 1], i);
  }

  /** In every reachable state the map of a claim is the one last derived for it, whole: its sectors, and
      as many of them data as the size says, a VHD's footer included. */
  lemma {:induction false} MapOrigin(states: seq<State>, events: seq<Event>, k: nat, i: int) returns (m: nat)
    requires Run(states, events) && k < |states| && 0 <= i < |states[k].claims| && states[k].claims[i].Live?
    ensures m < k && MapFrom(events[m], i, states[k].claims[i])
    ensures forall q :: m < q <= k ==> i < |states[q].claims| && SameMap(states[q].claims[i], states[k].claims[i])
  {
    if k == 0 {
      assert false;
    } else {
      MapAt(states, events, k - 1, i);
      if SameMap(states[k - 1].claims[i], states[k].claims[i]) {
        m := MapOrigin(states, events, k - 1, i);
      } else {
        m := k - 1;
      }
    }
  }

  /** Event j made claim i what it is: the file asked for on the volume asked for. */
  ghost predicate Makes(s: State, e: Event, i: int, c: ClaimState) {
    && e.EvClaim? && VolumeLive(s, e.volId) && 0 <= i < |s.claims| && s.claims[i].FreeClaim? && c.Live?
    && c.vol == e.volId - 1 && c.format == e.format && c.rec == e.rec && c.seqNo == e.seqNo
  }

  lemma {:induction false} NewClaim(states: seq<State>, events: seq<Event>, k: nat, i: int)
    requires Run(states, events) && k < |events| && 0 <= i < |states[k + 1].claims| && states[k + 1].claims[i].Live?
    ensures i < |states[k].claims|
    ensures if states[k].claims[i].Live? then SameClaim(states[k].claims[i], states[k + 1].claims[i])
            else Makes(states[k], events[k], i, states[k + 1].claims[i])
  {
    MovesAt(states, events, k, i);
    if states[k].claims[i].FreeClaim? {
      StepAt(states, events, k);
      MapStep(states[k], events[k], states[k + 1], i);
      Made(states[k], events[k], states[k + 1], i);
    }
  }

  lemma {:induction false} Made(s: State, e: Event, s': State, i: int)
    requires Linked(s) && Step(s, e, s') && 0 <= i < |s.claims| == |s'.claims| && s'.claims[i].Live? && s.claims[i].FreeClaim?
    requires e.EvClaim? || e.EvGrow?
    ensures Makes(s, e, i, s'.claims[i])
  {
    if e.EvClaim? {
      ClaimExact(s, e.volId, e.format, e.rec, e.seqNo, e.derived);
    } else {
      GrowMoves(s, e.id, e.derived, i);
    }
  }

  /** Every live claim was made, of the file it is for, and has been live since. */
  lemma {:induction false} ClaimOrigin(states: seq<State>, events: seq<Event>, k: nat, i: int) returns (j: nat)
    requires Run(states, events) && k < |states| && 0 <= i < |states[k].claims| && states[k].claims[i].Live?
    ensures j < k && Makes(states[j], events[j], i, states[k].claims[i]) && ClaimThroughout(states, i, j + 1, k)
  {
    if k == 0 {
      assert false;
    } else {
      NewClaim(states, events, k - 1, i);
      if states[k - 1].claims[i].Live? {
        j := ClaimOrigin(states, events, k - 1, i);
      } else {
        j := k - 1;
      }
    }
  }

  // ---- a volume, from its registration on ----------------------------------

  ghost predicate VolumeThroughout(states: seq<State>, v: int, j: nat, k: nat) {
    j <= k < |states| && forall m :: j <= m <= k ==> HasVolume(states[m], v)
  }

  ghost predicate HasVolume(s: State, v: int) {
    0 <= v < |s.volumes| && s.volumes[v].Volume?
  }

  lemma {:induction false} VolumePart(states: seq<State>, v: int, j: nat, k: nat, a: nat, b: nat)
    requires VolumeThroughout(states, v, j, k) && j <= a <= b <= k
    ensures VolumeThroughout(states, v, a, b)
  {
    forall m | a <= m <= b ensures HasVolume(states[m], v) {
    }
  }

  lemma {:induction false} NewVolume(s: State, e: Event, s': State, v: int)
    requires Linked(s) && Step(s, e, s') && 0 <= v < |s'.volumes| && s'.volumes[v].Volume? && v < |s.volumes| && s.volumes[v].FreeVolume?
    ensures e.EvVolumeAdd? && AsAdded(s'.volumes[v], e.args, e.probe) && Untouched(s'.volumes[v])
  {
    if e.EvVolumeAdd? {
      AddExact(s, e.args, e.probe);
    } else {
      StaysFree(s, e, s', v);
    }
  }

  lemma {:induction false} StaysFree(s: State, e: Event, s': State, v: int)
    requires Linked(s) && Step(s, e, s') && !e.EvVolumeAdd? && 0 <= v < |s.volumes| && s.volumes[v].FreeVolume?
    ensures |s'.volumes| == |s.volumes| && s'.volumes[v].FreeVolume?
  {
  }

  lemma {:induction false} VolumeCount(s: State, e: Event, s': State)
    requires Linked(s) && Step(s, e, s')
    ensures |s'.volumes| == |s.volumes|
  {
  }

  lemma {:induction false} VolumeStays(s: State, e: Event, s': State, v: int)
    requires Linked(s) && Step(s, e, s') && 0 <= v < |s.volumes| == |s'.volumes| && s.volumes[v].Volume? && s'.volumes[v].Volume?
    ensures SameVolume(s.volumes[v], s'.volumes[v])
  {
    if !e.EvVolumeRemove? {
      VolumeKept(s, e, s', v);
    }
  }

  lemma {:induction false} VolumeFrom(states: seq<State>, events: seq<Event>, k: nat, v: int)
    requires Run(states, events) && k < |events| && 0 <= v < |states[k + 1].volumes| && states[k + 1].volumes[v].Volume?
    ensures v < |states[k].volumes|
    ensures if states[k].volumes[v].Volume? then SameVolume(states[k].volumes[v], states[k + 1].volumes[v])
            else events[k].EvVolumeAdd? && AsAdded(states[k + 1].volumes[v], events[k].args, events[k].probe) && Untouched(states[k + 1].volumes[v])
  {
    StepAt(states, events, k);
    VolumeCount(states[k], events[k], states[k + 1]);
    if states[k].volumes[v].Volume? {
      VolumeStays(states[k], events[k], states[k + 1], v);
    } else {
      NewVolume(states[k], events[k], states[k + 1], v);
    }
  }

  /** No request was refused on the volume yet. */
  ghost predicate Untouched(v: Volume)
    requires v.Volume?
  {
    v.guardHits == 0 && v.readaheadHits == 0
  }

  /** Every live volume was added, and is as it was added: its devices, the geometry and the dirty bit its
      devices showed, and the flags and the reserved ranges it came with. */
  lemma {:induction false} VolumeOrigin(states: seq<State>, events: seq<Event>, k: nat, v: int) returns (j: nat)
    requires Run(states, events) && k < |states| && 0 <= v < |states[k].volumes| && states[k].volumes[v].Volume?
    ensures j < k && events[j].EvVolumeAdd? && AsAdded(states[k].volumes[v], events[j].args, events[j].probe)
    ensures VolumeThroughout(states, v, j + 1, k) && Untouched(states[j + 1].volumes[v])
  {
    if k == 0 {
      assert false;
    } else {
      VolumeFrom(states, events, k - 1, v);
      if states[k - 1].volumes[v].Volume? {
        j := VolumeOrigin(states, events, k - 1, v);
      } else {
        j := k - 1;
      }
    }
  }

  /** The event is a write through view A of a claim on volume v. */
  ghost predicate WritesTo(s: State, e: Event, v: int) {
    exists i :: Through(s, e, i) && 0 <= i < |s.claims| && s.claims[i].Live? && s.claims[i].vol == v && e.write
  }

  /** So on a volume added read-only, or dirty when it was added, no view ever passes a write on: view A
      refuses it, and no table of views B and C is writable; nor is a dirty one ever in view B. */
  lemma {:induction false} AddedReadOnly(states: seq<State>, events: seq<Event>, k: nat, v: int) returns (j: nat)
    requires Run(states, events) && k < |events| && 0 <= v < |states[k].volumes| && states[k].volumes[v].Volume?
    ensures j < k && events[j].EvVolumeAdd? && AsAdded(states[k].volumes[v], events[j].args, events[j].probe)
    ensures events[j].args.flags == 1 || events[j].probe.dirty ==>
              && (WritesTo(states[k], events[k], v) ==> !events[k].out.Remap?)
              && (forall t :: t in states[k].views && states[k].views[t].vol == v ==> !states[k].views[t].writable)
    ensures events[j].probe.dirty ==> forall t :: t in states[k].views && states[k].views[t].vol == v ==> states[k].views[t].mode == ViewC
  {
    j := VolumeOrigin(states, events, k, v);
    if events[k].EvImageMap? && events[k].out.Remap? && events[k].write {
      ReadOnlyVolume(states, events, k);
    }
    ViewsFit(states, events, k, v);
  }

  lemma {:induction false} ViewsFit(states: seq<State>, events: seq<Event>, k: nat, v: int)
    requires Run(states, events) && k < |states| && 0 <= v < |states[k].volumes| && states[k].volumes[v].Volume?
    ensures forall t :: t in states[k].views && states[k].views[t].vol == v ==> ViewFit(states[k].volumes[v], states[k].views[t])
  {
    RunInv(states, events, k);
  }

  /** And no claim on it ever holds a sector of the ranges it reserved. */
  lemma {:induction false} ReservedStays(states: seq<State>, events: seq<Event>, k: nat, i: int, x: int) returns (j: nat)
    requires Run(states, events) && k < |states| && Owns(states[k], i, x)
    ensures j < k && events[j].EvVolumeAdd? && Linked(states[k])
    ensures AsAdded(states[k].volumes[states[k].claims[i].vol], events[j].args, events[j].probe) && !InRanges(events[j].args.reserved, x)
  {
    RunInv(states, events, k);
    var v := states[k].claims[i].vol;
    j := VolumeOrigin(states, events, k, v);
    SectorOwned(states[k], i, x);
  }

  // ---- refusals are counted ------------------------------------------------

  /** Event m was refused by a table of views B and C on volume v. */
  ghost predicate RefusedOn(s: State, e: Event, v: int, readahead: bool) {
    e.EvViewMap? && e.t in s.views && s.views[e.t].vol == v && e.out == Kill && e.readahead == readahead
  }

  ghost function Refused(states: seq<State>, events: seq<Event>, v: int, readahead: bool, j: nat, k: nat): nat
    requires j <= k <= |events| && |states| == |events| + 1
    decreases k - j
  {
    if j == k then 0 else Refused(states, events, v, readahead, j, k - 1) + if RefusedOn(states[k - 1], events[k - 1], v, readahead) then 1 else 0
  }

  lemma {:induction false} HitsStep(s: State, e: Event, s': State, v: int)
    requires Linked(s) && Step(s, e, s') && 0 <= v < |s.volumes| == |s'.volumes| && s.volumes[v].Volume? && s'.volumes[v].Volume?
    ensures s'.volumes[v].guardHits == s.volumes[v].guardHits + if RefusedOn(s, e, v, false) then 1 else 0
    ensures s'.volumes[v].readaheadHits == s.volumes[v].readaheadHits + if RefusedOn(s, e, v, true) then 1 else 0
  {
    if !e.EvViewMap? {
      QuietHits(s, e, s', v);
    }
  }

  lemma {:induction false} QuietHits(s: State, e: Event, s': State, v: int)
    requires Linked(s) && Step(s, e, s') && !e.EvViewMap? && 0 <= v < |s.volumes| == |s'.volumes| && s.volumes[v].Volume? && s'.volumes[v].Volume?
    ensures s'.volumes[v].guardHits == s.volumes[v].guardHits && s'.volumes[v].readaheadHits == s.volumes[v].readaheadHits
  {
    if e.EvVolumeAdd? {
      AddKeeps(s, e.args, e.probe, v);
    } else if !e.EvVolumeRemove? && !e.EvViewCtr? && !e.EvViewDtr? {
      assert s'.volumes == s.volumes;
    }
  }

  lemma {:induction false} HitsAt(states: seq<State>, events: seq<Event>, k: nat, v: int)
    requires Run(states, events) && k < |events| && VolumeThroughout(states, v, k, k + 1)
    ensures var a, b := states[k].volumes[v], states[k + 1].volumes[v];
            && b.guardHits == a.guardHits + (if RefusedOn(states[k], events[k], v, false) then 1 else 0)
            && b.readaheadHits == a.readaheadHits + if RefusedOn(states[k], events[k], v, true) then 1 else 0
  {
    StepAt(states, events, k);
    VolumeCount(states[k], events[k], states[k + 1]);
    HitsStep(states[k], events[k], states[k + 1], v);
  }

  /** A volume's two counters are the requests its views refused since it was added, readahead apart. */
  lemma {:induction false} RefusalsCounted(states: seq<State>, events: seq<Event>, v: int, j: nat, k: nat)
    requires Run(states, events) && VolumeThroughout(states, v, j, k)
    ensures states[k].volumes[v].guardHits == states[j].volumes[v].guardHits + Refused(states, events, v, false, j, k)
    ensures states[k].volumes[v].readaheadHits == states[j].volumes[v].readaheadHits + Refused(states, events, v, true, j, k)
    decreases k - j
  {
    if j < k {
      VolumePart(states, v, j, k, j, k - 1);
      VolumePart(states, v, j, k, k - 1, k);
      RefusalsCounted(states, events, v, j, k - 1);
      HitsAt(states, events, k - 1, v);
    }
  }

  /** Requests of view A of claim i that were refused. */
  ghost function RefusedThrough(states: seq<State>, events: seq<Event>, i: int, j: nat, k: nat): nat
    requires j <= k <= |events| && |states| == |events| + 1
    decreases k - j
  {
    if j == k then 0
    else RefusedThrough(states, events, i, j, k - 1) + if Through(states[k - 1], events[k - 1], i) && events[k - 1].out == Kill then 1 else 0
  }

  lemma {:induction false} RefusalStep(s: State, e: Event, s': State, i: int)
    requires Linked(s) && Step(s, e, s') && 0 <= i < |s.claims| == |s'.claims| && s.claims[i].Live? && s'.claims[i].Live?
    ensures s'.claims[i].refusals == s.claims[i].refusals + if Through(s, e, i) && e.out == Kill then 1 else 0
  {
    if e.EvClaim? || e.EvGrow? || e.EvCrossCheck? {
      QuietRefusals(s, e, s', i);
    }
  }

  lemma {:induction false} QuietRefusals(s: State, e: Event, s': State, i: int)
    requires Linked(s) && Step(s, e, s') && (e.EvClaim? || e.EvGrow? || e.EvCrossCheck?)
    requires 0 <= i < |s.claims| == |s'.claims| && s.claims[i].Live? && s'.claims[i].Live?
    ensures s'.claims[i].refusals == s.claims[i].refusals
  {
  }

  lemma {:induction false} RefusalAt(states: seq<State>, events: seq<Event>, k: nat, i: int)
    requires Run(states, events) && k < |events| && ClaimThroughout(states, i, k, k + 1)
    ensures states[k + 1].claims[i].refusals ==
            states[k].claims[i].refusals + if Through(states[k], events[k], i) && events[k].out == Kill then 1 else 0
  {
    StepAt(states, events, k);
    RefusalStep(states[k], events[k], states[k + 1], i);
  }

  /** A claim's counter is the requests its view A refused. */
  lemma {:induction false} ClaimRefusalsCounted(states: seq<State>, events: seq<Event>, i: int, j: nat, k: nat)
    requires Run(states, events) && ClaimThroughout(states, i, j, k)
    ensures states[k].claims[i].refusals == states[j].claims[i].refusals + RefusedThrough(states, events, i, j, k)
    decreases k - j
  {
    if j < k {
      ClaimPart(states, i, j, k, j, k - 1);
      ClaimPart(states, i, j, k, k - 1, k);
      ClaimRefusalsCounted(states, events, i, j, k - 1);
      RefusalAt(states, events, k - 1, i);
    }
  }
}
