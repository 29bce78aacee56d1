/** What the views guarantee on the devices themselves. PG_VOLUME_ADD refuses a raw device or a
    plaintext device that another volume has as its own, but not a raw device that is another volume's
    plaintext device: what that lets through, and that nothing else does. */
module Devices {
  import opened Words
  import opened Views
  import opened Isolation
  import opened Guarantees

  // ---- registered devices --------------------------------------------------

  /** No two live volumes have one raw device, or one plaintext device. */
  ghost predicate Distinct(s: State) {
    forall i, j :: 0 <= i < |s.volumes| && 0 <= j < |s.volumes| && i != j && s.volumes[i].Volume? && s.volumes[j].Volume? ==>
      s.volumes[i].raw != s.volumes[j].raw && s.volumes[i].plain != s.volumes[j].plain
  }

  /** A step adds a volume on devices no other has as its own, drops one, or keeps every device. */
  ghost predicate KeepsDevices(s: State, s': State) {
    && |s'.volumes| == |s.volumes|
    && forall i :: 0 <= i < |s.volumes| && s'.volumes[i].Volume? ==>
         s.volumes[i].Volume? && s'.volumes[i].raw == s.volumes[i].raw && s'.volumes[i].plain == s.volumes[i].plain
  }

  lemma {:induction false} DistinctAdd(s: State, a: AddArgs, p: Probe)
    requires Distinct(s)
    ensures Distinct(VolumeAdd(s, a, p).0)
  {
    forall i | 0 <= i < |s.volumes| && s.volumes[i].Volume? && !SameDevice(s.volumes[i], a)
      ensures s.volumes[i].raw != a.raw && s.volumes[i].plain != a.plain
    {
    }
  }

  lemma {:induction false} OthersKeepDevices(s: State, e: Event, s': State)
    requires Step(s, e, s') && !e.EvVolumeAdd?
    ensures KeepsDevices(s, s')
  {
  }

  lemma {:induction false} DistinctStep(s: State, e: Event, s': State)
    requires Distinct(s) && Step(s, e, s')
    ensures Distinct(s')
  {
    if e.EvVolumeAdd? {
      DistinctAdd(s, e.args, e.probe);
    } else {
      OthersKeepDevices(s, e, s');
    }
  }

  /** In every reachable state no two volumes share a raw device or a plaintext device. */
  lemma {:induction false} DevicesDistinct(states: seq<State>, events: seq<Event>, k: nat)
    requires Run(states, events) && k < |states|
    ensures Distinct(states[k])
  {
    if k > 0 {
      DevicesDistinct(states, events, k - 1);
      StepAt(states, events, k - 1);
      DistinctStep(states[k - 1], events[k - 1], states[k]);
    }
  }

  // ---- what reaches a claimed sector on its device -------------------------

  /** Event e passed a request for sector x on to device dev. */
  ghost predicate Reaches(e: Event, dev: int, x: int) {
    (e.EvImageMap? || e.EvViewMap?) && e.out.Remap? && e.out.dev == dev && e.out.sector <= x < e.out.sector + e.out.count
  }

  /** It is a request of claim i's own view A. */
  ghost predicate OwnViewA(s: State, e: Event, i: int) {
    e.EvImageMap? && e.t in s.images && s.images[e.t].claim == i
  }

  /** It is a request through view B of another live volume, whose raw device is device dev. */
  ghost predicate ForeignViewB(s: State, e: Event, v: int, dev: int) {
    && e.EvViewMap? && e.t in s.views && s.views[e.t].mode == ViewB
    && var w := s.views[e.t].vol; w != v && 0 <= w < |s.volumes| && s.volumes[w].Volume? && s.volumes[w].raw == dev
  }

  /** The table behind an event goes to its volume's device for the view. */
  lemma {:induction false} TargetDevice(states: seq<State>, events: seq<Event>, k: nat)
    requires Run(states, events) && k < |events| && (events[k].EvImageMap? || events[k].EvViewMap?) && events[k].out.Remap?
    ensures Linked(states[k]) && (events[k].EvImageMap? ==> events[k].t in states[k].images)
    ensures events[k].EvViewMap? ==> events[k].t in states[k].views
    ensures var s, e := states[k], events[k];
            var v := s.volumes[TargetVolume(s, e)];
            e.out.dev == if e.EvViewMap? && s.views[e.t].mode == ViewB then v.raw else v.plain
  {
    StepAt(states, events, k);
    var s, e := states[k], events[k];
    if e.EvImageMap? {
      assert ImageFit(s, s.images[e.t]);
    } else {
      assert ViewFit(s.volumes[s.views[e.t].vol], s.views[e.t]);
    }
  }

  /** In every run, whatever reaches a claimed sector on the plaintext device of its volume is the
      claim's own view A, or view B of another volume registered with that device as its raw one. */
  lemma {:induction false} ReachedOnDevice(states: seq<State>, events: seq<Event>, k: nat, i: int, x: int)
    requires Run(states, events) && k < |events| && Owns(states[k], i, x) && Linked(states[k])
    requires Reaches(events[k], states[k].volumes[states[k].claims[i].vol].plain, x)
    ensures var s, v := states[k], states[k].claims[i].vol;
            OwnViewA(s, events[k], i) || ForeignViewB(s, events[k], v, s.volumes[v].plain)
  {
    var s, e, v := states[k], events[k], states[k].claims[i].vol;
    TargetDevice(states, events, k);
    if TargetVolume(s, e) == v {
      OnlyThroughViewA(states, events, k, i, x);
    } else {
      DevicesDistinct(states, events, k);
    }
  }

  /** Some other live volume's raw device is volume v's plaintext device. */
  ghost predicate Crossed(s: State, v: int)
    requires 0 <= v < |s.volumes| && s.volumes[v].Volume?
  {
    exists w :: 0 <= w < |s.volumes| && w != v && s.volumes[w].Volume? && s.volumes[w].raw == s.volumes[v].plain
  }

  /** The point of the module: in every run, as long as no other live volume's raw device is the
      plaintext device of a claim's volume, a claimed sector is reached on that device only by the
      claim's own view A. */
  lemma {:induction false} OnlyThroughOwnView(states: seq<State>, events: seq<Event>, k: nat, i: int, x: int)
    requires Run(states, events) && k < |events| && Owns(states[k], i, x) && Linked(states[k])
    requires Reaches(events[k], states[k].volumes[states[k].claims[i].vol].plain, x)
    requires !Crossed(states[k], states[k].claims[i].vol)
    ensures OwnViewA(states[k], events[k], i)
  {
    ReachedOnDevice(states, events, k, i, x);
  }

  // ---- and the condition is needed -----------------------------------------

  /** The live volumes are two: devices (r1, p1) in slot 0 and (r2, p2) in slot 1. */
  ghost predicate TwoVolumes(s: State, r1: int, p1: int, r2: int, p2: int) {
    && |s.volumes| == MAX_VOLUMES
    && s.volumes[0].Volume? && s.volumes[0].raw == r1 && s.volumes[0].plain == p1
    && s.volumes[1].Volume? && s.volumes[1].raw == r2 && s.volumes[1].plain == p2
    && forall w :: 2 <= w < |s.volumes| ==> s.volumes[w].FreeVolume?
  }

  /** Event k passes on, past claim i's view A, a request for its sector x on its plaintext device. */
  ghost predicate Breach(states: seq<State>, events: seq<Event>, k: nat, i: int, x: int, r1: int, p1: int, r2: int, p2: int) {
    && Run(states, events) && k < |events| && TwoVolumes(states[k], r1, p1, r2, p2)
    && Owns(states[k], i, x) && states[k].claims[i].vol == 0
    && Reaches(events[k], p1, x) && !OwnViewA(states[k], events[k], i)
  }

  /** The states of a run of up to five events from the start. */
  ghost predicate RunTo(states: seq<State>, events: seq<Event>, s: State) {
    Run(states, events) && states[|events|] == s
  }

  lemma {:induction false} RunAppend(states: seq<State>, events: seq<Event>, s: State, e: Event, s': State)
    requires RunTo(states, events, s) && Step(s, e, s')
    ensures RunTo(states + [s'], events + [e], s')
  {
    forall k | 0 <= k < |events + [e]| ensures StepHolds(states + [s'], events + [e], k) {
      if k < |events| {
        assert StepHolds(states, events, k);
      }
    }
  }

  // A volume of 2048 sectors in 512-byte clusters, with $MFT at cluster 4.
  const Small := Shape(2048, 512, 1024, 4)

  ghost function NewVolume(raw: int, plain: int, shape: Shape, reserved: seq<UserRange>): Volume {
    Volume(raw, plain, false, false, shape, ReservedSet(reserved), NoView, 0, 0, 0)
  }

  ghost function FreshClaim(rec: u64, seqNo: int, d: Derived): ClaimState
    requires d.Derived?
  {
    Live(0, rec, seqNo, 0, false, false, false, Limit(0, d.size), d.file, 0, 0)
  }

  ghost function OneVolume(v: Volume): State {
    Initial().(volumes := Initial().volumes[0 := v])
  }

  /** Two volumes added. */
  ghost function BothVolumes(v: Volume, w: Volume): State {
    Initial().(volumes := Initial().volumes[0 := v][1 := w])
  }

  /** And a file of the first claimed. */
  ghost function SetUp(v: Volume, w: Volume, c: ClaimState): State {
    BothVolumes(v, w).(claims := Initial().claims[0 := c])
  }

  /** PG_VOLUME_ADD takes any two volumes that share neither a raw nor a plaintext device. */
  lemma {:induction false} BothAdded(r1: int, p1: int, shape1: Shape, reserved: seq<UserRange>, r2: int, p2: int, shape2: Shape)
    requires r1 != r2 && p1 != p2 && |reserved| <= MAX_RESERVED
    requires forall j :: 0 <= j < |reserved| ==> RangeInside(reserved[j], shape1.sectors)
    ensures var v, w := NewVolume(r1, p1, shape1, reserved), NewVolume(r2, p2, shape2, []);
            && VolumeAdd(Initial(), AddArgs(r1, p1, 0, reserved), Probed(shape1, false)) == (OneVolume(v), Reply(OK, NoError))
            && VolumeAdd(OneVolume(v), AddArgs(r2, p2, 0, []), Probed(shape2, false)) == (BothVolumes(v, w), Reply(OK, NoError))
  {
    var s0, s1 := Initial(), OneVolume(NewVolume(r1, p1, shape1, reserved));
    assert FirstFreeVolume(s0.volumes, 0) == 0;
    assert FirstFreeVolume(s1.volumes, 1) == 1 && FirstFreeVolume(s1.volumes, 0) == 1;
  }

  /** PG_CLAIM takes a file of the first clear of its reserved ranges. */
  lemma {:induction false} FileClaimed(v: Volume, w: Volume, rec: u64, seqNo: int, d: Derived)
    requires v.Volume? && !v.ReadOnly() && d.Derived? && Limit(0, d.size) > 0 && !Touches(d.file, v.reserved)
    ensures MakeClaim(BothVolumes(v, w), 1, 0, rec, seqNo, d) == (SetUp(v, w, FreshClaim(rec, seqNo, d)), Reply(OK, NoError))
  {
    var s := BothVolumes(v, w);
    assert FirstFreeClaim(s.claims, 0) == 0;
    assert Conflict(s, 0, -1, d.file) == NoError;
  }

  /** A one-sector file. */
  ghost function OneClaim(x: nat): ClaimState {
    FreshClaim(24, 1, Derived([x], 512))
  }

  ghost function SmallSetUp(r1: int, p1: int, r2: int, p2: int, reserved: seq<UserRange>, x: nat): State {
    SetUp(NewVolume(r1, p1, Small, reserved), NewVolume(r2, p2, Small, []), OneClaim(x))
  }

  /** The set-up is reachable on any devices that PG_VOLUME_ADD takes together. */
  lemma {:induction false} SetUpReached(r1: int, p1: int, r2: int, p2: int, reserved: seq<UserRange>, x: nat) returns (states: seq<State>, events: seq<Event>)
    requires r1 != r2 && p1 != p2 && x < 2048 && x !in ReservedSet(reserved) && |reserved| <= MAX_RESERVED
    requires forall j :: 0 <= j < |reserved| ==> RangeInside(reserved[j], 2048)
    ensures RunTo(states, events, SmallSetUp(r1, p1, r2, p2, reserved, x))
  {
    var v, w, d := NewVolume(r1, p1, Small, reserved), NewVolume(r2, p2, Small, []), Derived([x], 512);
    BothAdded(r1, p1, Small, reserved, r2, p2, Small);
    FileClaimed(v, w, 24, 1, d);
    var s0, s1, s2 := Initial(), OneVolume(v), BothVolumes(v, w);
    var e1 := EvVolumeAdd(AddArgs(r1, p1, 0, reserved), Probed(Small, false));
    var e2 := EvVolumeAdd(AddArgs(r2, p2, 0, []), Probed(Small, false));
    var e3 := EvClaim(1, 0, 24, 1, d);
    assert RunTo([s0], [], s0);
    RunAppend([s0], [], s0, e1, s1);
    RunAppend([s0] + [s1], [] + [e1], s1, e2, s2);
    states, events := [s0] + [s1] + [s2] + [SetUp(v, w, OneClaim(x))], [] + [e1] + [e2] + [e3];
    RunAppend([s0] + [s1] + [s2], [] + [e1] + [e2], s2, e3, SetUp(v, w, OneClaim(x)));
  }

  /** View B or C of the second volume, with one request for sector x. */
  lemma {:induction false} ReadThrough(states: seq<State>, events: seq<Event>, s: State, mode: View, x: nat)
    returns (states': seq<State>, events': seq<Event>, k: nat)
    requires RunTo(states, events, s) && Linked(s) && s.views == map[] && mode != NoView && x + 1 < TWO64
    requires s.volumes[1].Volume? && s.volumes[1].view == NoView && !s.volumes[1].dirty
    requires forall i :: 0 <= i < |s.claims| && s.claims[i].Live? ==> s.claims[i].vol != 1
    ensures Run(states', events') && k < |events'| && states'[k].claims == s.claims && states'[k].images == s.images
    ensures states'[k].volumes == s.volumes[1 := s.volumes[1].(view := mode, viewTables := s.volumes[1].viewTables + 1)]
    ensures events'[k] == EvViewMap(0, x, 1, false, Remap(if mode == ViewB then s.volumes[1].raw else s.volumes[1].plain, x, 1))
  {
    var e := EvViewCtr(0, 2, mode, false, true);
    var s' := ViewCtr(s, 0, 2, mode, false, true).0;
    RunAppend(states, events, s, e, s');
    var out := Remap(s'.views[0].dev, x, 1);
    RunAppend(states + [s'], events + [e], s', EvViewMap(0, x, 1, false, out), s');
    states', events', k := states + [s'] + [s'], events + [e] + [EvViewMap(0, x, 1, false, out)], |events| + 1;
  }

  lemma {:induction false} CrossedBreach(r1: int, p1: int, r2: int, p2: int) returns (states: seq<State>, events: seq<Event>, k: nat)
    requires r1 != r2 && p1 != p2 && r2 == p1
    ensures Breach(states, events, k, 0, 2000, r1, p1, r2, p2)
  {
    states, events := SetUpReached(r1, p1, r2, p2, [], 2000);
    states, events, k := ReadThrough(states, events, SmallSetUp(r1, p1, r2, p2, [], 2000), ViewB, 2000);
    assert states[k].claims[0] == OneClaim(2000) && 2000 in states[k].claims[0].file;
  }

  /** Of two volumes that may be registered together, a claimed sector of the first can be reached on
      its plaintext device past its own view A if and only if that is the second's raw device. */
  lemma {:induction false} BreachExactly(r1: int, p1: int, r2: int, p2: int)
    requires r1 != r2 && p1 != p2
    ensures (exists states, events, k: nat, i, x :: Breach(states, events, k, i, x, r1, p1, r2, p2)) <==> r2 == p1
  {
    if r2 == p1 {
      var states, events, k := CrossedBreach(r1, p1, r2, p2);
    }
    forall states: seq<State>, events: seq<Event>, k: nat, i, x | Breach(states, events, k, i, x, r1, p1, r2, p2) ensures r2 == p1 {
      RunInv(states, events, k);
      ReachedOnDevice(states, events, k, i, x);
    }
  }
}
