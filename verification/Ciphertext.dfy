/** The two halves together: on a BitLocker volume whose non-data regions were reserved, protecting
    a file's sectors in the plaintext protects exactly its own sectors of the ciphertext. */
module Ciphertext {
  import opened Words
  import opened Extents
  import opened Views
  import opened Isolation
  import opened Guarantees
  import opened Devices
  import BitLocker

  /** The volume is the decrypted view of a layout, and everything the layout reserves is reserved. */
  ghost predicate Reserves(v: Volume, l: BitLocker.Layout) {
    && v.Volume? && BitLocker.WellFormed(l)
    && v.shape.sectors * 512 <= l.volumeSize
    && forall x :: Covers(BitLocker.ReservedRanges(l), x) ==> x in v.reserved
  }

  /** In every reachable state a claimed sector is read from the same sector of the ciphertext, and
      nothing else in the decrypted view is read from there. */
  lemma {:induction false} ClaimedSectorsAlign(states: seq<State>, events: seq<Event>, k: nat, i: int, x: int, l: BitLocker.Layout, y: nat)
    requires Run(states, events) && k < |states| && Owns(states[k], i, x)
    requires Linked(states[k]) && Reserves(states[k].volumes[states[k].claims[i].vol], l)
    ensures BitLocker.SectorSource(l, y) == Some(x) <==> y == x
  {
    RunInv(states, events, k);
    SectorOwned(states[k], i, x);
    BitLocker.ProtectedTogether(l, x, y);
  }

  /** Hence a request that the volume's own view B passes on to the ciphertext device never reaches a sector that any
      claimed plaintext sector of the volume is read from. */
  lemma {:induction false} CiphertextIsolation(states: seq<State>, events: seq<Event>, k: nat, i: int, y: int, l: BitLocker.Layout)
    requires Run(states, events) && k < |events| && events[k].EvViewMap? && events[k].out.Remap?
    requires Owns(states[k], i, y) && y >= 0
    requires Linked(states[k]) && Reserves(states[k].volumes[states[k].claims[i].vol], l)
    requires events[k].t in states[k].views && states[k].claims[i].vol == states[k].views[events[k].t].vol
    ensures BitLocker.SectorSource(l, y).Some?
    ensures !(events[k].out.sector <= BitLocker.SectorSource(l, y).value < events[k].out.sector + events[k].out.count)
  {
    ClaimedSectorsAlign(states, events, k, i, y, l, y);
    ViewIsolation(states, events, k, i, y);
  }

  // ---- on the ciphertext device itself -------------------------------------

  /** Event e passed a request on to device dev for the sector that plaintext sector y is read from. */
  ghost predicate ReachesCiphertext(l: BitLocker.Layout, e: Event, dev: int, y: nat)
    requires BitLocker.WellFormed(l)
  {
    BitLocker.SectorSource(l, y).Some? && Reaches(e, dev, BitLocker.SectorSource(l, y).value)
  }

  /** It goes through another live volume registered with dev as its plaintext device. */
  ghost predicate ForeignPlain(s: State, e: Event, v: int, dev: int)
    requires Linked(s) && ((e.EvImageMap? && e.t in s.images) || (e.EvViewMap? && e.t in s.views))
  {
    TargetVolume(s, e) != v && s.volumes[TargetVolume(s, e)].plain == dev
  }

  /** In every run, whatever reaches the ciphertext of a claimed sector on the raw device of its volume
      goes through another volume registered with that device as its plaintext one, or, where the
      volume's raw device is its plaintext device, is the claim's own view A. */
  lemma {:induction false} ReachedOnRaw(states: seq<State>, events: seq<Event>, k: nat, i: int, y: nat, l: BitLocker.Layout)
    requires Run(states, events) && k < |events| && Owns(states[k], i, y)
    requires Linked(states[k]) && Reserves(states[k].volumes[states[k].claims[i].vol], l)
    requires ReachesCiphertext(l, events[k], states[k].volumes[states[k].claims[i].vol].raw, y)
    ensures events[k].EvImageMap? ==> events[k].t in states[k].images
    ensures events[k].EvViewMap? ==> events[k].t in states[k].views
    ensures var s, v := states[k], states[k].claims[i].vol;
            || ForeignPlain(s, events[k], v, s.volumes[v].raw)
            || (s.volumes[v].raw == s.volumes[v].plain && OwnViewA(s, events[k], i))
  {
    var s, e, v := states[k], events[k], states[k].claims[i].vol;
    ClaimedSectorsAlign(states, events, k, i, y, l, y);
    TargetDevice(states, events, k);
    if TargetVolume(s, e) == v {
      OnlyThroughViewA(states, events, k, i, y);
    } else {
      DevicesDistinct(states, events, k);
    }
  }

  /** Event k reaches the ciphertext of claim i's sector y on its volume's raw device, r1. */
  ghost predicate CipherBreach(states: seq<State>, events: seq<Event>, k: nat, i: int, y: nat, l: BitLocker.Layout,
                               r1: int, p1: int, r2: int, p2: int)
  {
    && Run(states, events) && k < |events| && TwoVolumes(states[k], r1, p1, r2, p2)
    && Owns(states[k], i, y) && states[k].claims[i].vol == 0 && Reserves(states[k].volumes[0], l)
    && ReachesCiphertext(l, events[k], r1, y)
  }

  /** A small layout: 1 MiB of 512-byte sectors. */
  const Sample := BitLocker.Layout(512, 0x10_0000, [0x4_0000, 0x6_0000, 0x8_0000], 0x2000, 0x2_0000, None, 0x10_0000, false)

  /** Its reserved ranges, as PG_VOLUME_ADD takes them. */
  const SampleRanges := [UserRange(0, 16), UserRange(256, 16), UserRange(512, 128), UserRange(768, 128), UserRange(1024, 128)]

  lemma {:induction false} SampleReserved(v: Volume)
    requires v.Volume? && v.shape.sectors == 2048 && v.reserved == ReservedSet(SampleRanges)
    ensures Reserves(v, Sample) && 2000 !in v.reserved
  {
    assert BitLocker.WellFormed(Sample);
    var rs := BitLocker.ReservedRanges(Sample);
    forall x | Covers(rs, x) ensures x in v.reserved {
      var i :| 0 <= i < |rs| && In(rs[i], x);
      assert InRange(SampleRanges[i], x);
    }
  }

  lemma {:induction false} CrossedCiphertext(r1: int, p1: int, r2: int, p2: int) returns (states: seq<State>, events: seq<Event>, k: nat)
    requires r1 != r2 && p1 != p2 && p2 == r1
    ensures CipherBreach(states, events, k, 0, 2000, Sample, r1, p1, r2, p2)
  {
    SampleReserved(NewVolume(r1, p1, Small, SampleRanges));
    states, events := SetUpReached(r1, p1, r2, p2, SampleRanges, 2000);
    states, events, k := ReadThrough(states, events, SmallSetUp(r1, p1, r2, p2, SampleRanges, 2000), ViewC, 2000);
    assert states[k].claims[0] == OneClaim(2000) && 2000 in states[k].claims[0].file;
    RunInv(states, events, k);
    ClaimedSectorsAlign(states, events, k, 0, 2000, Sample, 2000);
  }

  /** Of two volumes that may be registered together, the first on a separate ciphertext device, the
      ciphertext of a claimed sector can be reached there if and only if that device is the second's
      plaintext device. */
  lemma {:induction false} CipherBreachExactly(r1: int, p1: int, r2: int, p2: int)
    requires r1 != r2 && p1 != p2 && r1 != p1
    ensures (exists states, events, k: nat, i, y: nat, l :: CipherBreach(states, events, k, i, y, l, r1, p1, r2, p2)) <==> p2 == r1
  {
    if p2 == r1 {
      var states, events, k := CrossedCiphertext(r1, p1, r2, p2);
    }
    forall states: seq<State>, events: seq<Event>, k: nat, i, y: nat, l | CipherBreach(states, events, k, i, y, l, r1, p1, r2, p2)
      ensures p2 == r1
    {
      RunInv(states, events, k);
      ReachedOnRaw(states, events, k, i, y, l);
    }
  }
}
