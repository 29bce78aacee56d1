/** kernel/dm-paguro/pg_ntfs.c: a file's $DATA segments, in the base record or through an
    $ATTRIBUTE_LIST, appended into one gapless run list. */
module NtfsWalk {
  import opened Words
  import opened Runlist
  import opened Ntfs
  import opened NtfsRecord

  // ---- one segment ---------------------------------------------------------

  /** A $DATA segment: the record it was found in, the attribute's position there, its header and bytes. */
  datatype Piece = Piece(recno: nat, rec: seq<byte>, pos: nat, h: Header, body: seq<byte>)

  /** The mapping pairs of a non-resident attribute. */
  function Pairs(h: Header, body: seq<byte>): seq<byte> {
    if h.mapping.Mapping? && h.mapping.pairs <= |body| then body[h.mapping.pairs..] else []
  }

  /** The mapping pairs b describe these runs: so the decoder answers, given room. */
  ghost predicate MapsTo(b: seq<byte>, runs: seq<Run>) {
    forall cap: nat :: |b| <= cap ==> Decode(b, 0, 0, cap) == Good(runs)
  }

  /** A segment and the runs its mapping pairs describe. */
  datatype Part = Part(piece: Piece, runs: seq<Run>)

  /** An unnamed, non-resident $DATA segment, neither sparse, encrypted nor compressed, and not empty. */
  ghost predicate Plain(p: Part) {
    var h := p.piece.h;
    && h.kind == AT_DATA && h.nameLength == 0
    && h.nonresident == 1 && h.mapping.Mapping?
    && h.flags / 0x8000 % 2 == 0 && h.flags / 0x4000 % 2 == 0
    && (if h.mapping.lowest == 0 then h.flags % 256 == 0 else h.flags % 2 == 0)
    && h.mapping.unit == 0 && NONRESIDENT_HEADER <= h.mapping.pairs < h.size
    && p.runs != [] && MapsTo(Pairs(h, p.piece.body), p.runs)
  }

  /** Clusters in a run list. */
  function Total(runs: seq<Run>): nat {
    if runs == [] then 0 else Total(runs[..|runs| - 1]) + runs[|runs| - 1].count
  }

  lemma {:induction false} TotalConcat(a: seq<Run>, b: seq<Run>)
    ensures Total(a + b) == Total(a) + Total(b)
  {
    if b == [] {
      assert a + b == a;
    } else {
      TotalConcat(a, b[..|b| - 1]);
      assert (a + b)[..|a + b| - 1] == a + b[..|b| - 1];
    }
  }

  /** The decoder's answer does not depend on spare capacity. */
  lemma {:induction false} DecodeRoom(b: seq<byte>, pos: nat, lcn: u64, room: nat, more: nat)
    requires pos <= |b| && Decode(b, pos, lcn, room).Good? && |Decode(b, pos, lcn, room).runs| <= more
    ensures Decode(b, pos, lcn, more) == Decode(b, pos, lcn, room)
    ensures |Decode(b, pos, lcn, room).runs| <= |b| - pos
    decreases |b| - pos
  {
    var x := Head(b, pos, lcn);
    if x.Next? {
      DecodeRoom(b, pos + x.size, x.run.lcn, room - 1, more - 1);
    }
  }

  lemma {:induction false} DecodedRuns(b: seq<byte>, cap: nat, runs: seq<Run>)
    requires Decode(b, 0, 0, cap) == Good(runs)
    ensures MapsTo(b, runs)
    ensures forall i :: 0 <= i < |runs| ==> 0 < runs[i].count && runs[i].lcn + runs[i].count < TWO64
  {
    forall more: nat | |b| <= more ensures Decode(b, 0, 0, more) == Good(runs) {
      DecodeRoom(b, 0, 0, cap, |runs|);
      DecodeRoom(b, 0, 0, cap, more);
    }
    DecodeFits(b, 0, 0, cap);
    forall i | 0 <= i < |runs| ensures 0 < runs[i].count && runs[i].lcn + runs[i].count < TWO64 {
      assert runs[i] in runs;
    }
  }

  /** Mapping pairs describe one run list. */
  lemma {:induction false} MapsToUnique(b: seq<byte>, runs: seq<Run>, other: seq<Run>)
    requires MapsTo(b, runs) && MapsTo(b, other)
    ensures runs == other
  {
    assert Decode(b, 0, 0, |b|) == Good(runs);
  }

  /** Room for the runs described is all the decoder needs. */
  lemma {:induction false} MapsToDecodes(b: seq<byte>, runs: seq<Run>, cap: nat)
    requires MapsTo(b, runs) && |runs| <= cap
    ensures Decode(b, 0, 0, cap) == Good(runs)
  {
    assert Decode(b, 0, 0, |b|) == Good(runs);
    DecodeRoom(b, 0, 0, |b|, cap);
  }

  /** The decoder into out, told by what its bytes describe: it succeeds whenever they describe `want`
      and there is room for it. */
  method DecodeInto(b: seq<byte>, out: array<Run>, base: nat, cap: nat, ghost want: seq<Run>) returns (e: int, k: nat)
    requires base + cap <= out.Length
    modifies out
    ensures e == 0 ==> k <= cap && MapsTo(b, out[base..base + k]) && forall i :: base <= i < base + k ==> 0 < out[i].count
    ensures MapsTo(b, want) && |want| <= cap ==> e == 0
    ensures forall i :: 0 <= i < out.Length && !(base <= i < base + cap) ==> out[i] == old(out[i])
  {
    e, k := RunlistDecode(b, out, base, cap);
    if e == 0 {
      DecodedRuns(b, cap, out[base..base + k]);
      forall i | base <= i < base + k ensures 0 < out[i].count {
        assert out[base..base + k][i - base] == out[i];
      }
    }
    if MapsTo(b, want) && |want| <= cap {
      MapsToDecodes(b, want, cap);
    }
  }

  // ---- decode_runs ---------------------------------------------------------

  method InsideVolume(g: Geometry, out: array<Run>, base: nat, k: nat) returns (ok: bool)
    requires base + k <= out.Length
    requires forall i :: base <= i < base + k ==> 0 < out[i].count
    ensures ok <==> InVolume(out[base..base + k], g.clusters)
  {
    var i := 0;
    while i < k
      invariant 0 <= i <= k
      invariant forall j :: base <= j < base + i ==> RunInside(out[j], g.clusters)
    {
      if out[base + i].lcn + out[base + i].count > g.clusters {
        assert out[base..base + k][i] == out[base + i];
        return false;
      }
      i := i + 1;
    }
    ok := true;
  }

  /** The attribute's mapping pairs, after its header, describe these runs, all inside the volume. */
  ghost predicate HasRuns(g: Geometry, h: Header, body: seq<byte>, runs: seq<Run>) {
    && h.mapping.Mapping? && NONRESIDENT_HEADER <= h.mapping.pairs < h.size
    && MapsTo(Pairs(h, body), runs) && InVolume(runs, g.clusters)
  }

  /** decode_runs: the attribute's runs into out[base..], every one inside the volume; whenever the
      attribute has the runs `want` and there is room for them. */
  method DecodeRuns(g: Geometry, h: Header, body: seq<byte>, out: array<Run>, base: nat, cap: nat, ghost want: seq<Run>) returns (e: int, k: nat)
    requires h.nonresident == 1 && h.mapping.Mapping? && |body| == h.size && base + cap <= out.Length
    modifies out
    ensures e == 0 ==> k <= cap && HasRuns(g, h, body, out[base..base + k])
    ensures HasRuns(g, h, body, want) && |want| <= cap ==> e == 0
    ensures forall i :: 0 <= i < out.Length && !(base <= i < base + cap) ==> out[i] == old(out[i])
  {
    k := 0;
    if h.mapping.pairs < NONRESIDENT_HEADER || h.mapping.pairs >= h.size {
      return E_ATTR_BOUNDS, 0;
    }
    e, k := DecodeInto(Pairs(h, body), out, base, cap, want);
    if e == 0 {
      var ok := InsideVolume(g, out, base, k);
      e := if ok then 0 else E_OUTSIDE_VOLUME;
      if MapsTo(Pairs(h, body), want) {
        MapsToUnique(Pairs(h, body), want, out[base..base + k]);
      }
    }
  }

  // ---- segment -------------------------------------------------------------

  /** struct seg: progress through a file's $DATA segments. */
  datatype Seg = Seg(n: nat, vcn: u64, alloc: u64, size: u64, init: u64)

  ghost predicate AllPlain(ps: seq<Part>) {
    forall i :: 0 <= i < |ps| ==> Plain(ps[i])
  }

  /** The runs of the segments, end to end. */
  ghost function Concat(ps: seq<Part>): seq<Run> {
    if ps == [] then [] else Concat(ps[..|ps| - 1]) + ps[|ps| - 1].runs
  }

  /** Every segment starts at the virtual cluster where the previous one stopped and ends where its
      own runs end: VCNs 0 to the total, no gap. */
  ghost predicate Gapless(ps: seq<Part>)
    requires AllPlain(ps)
  {
    ps == [] ||
    var m := ps[|ps| - 1].piece.h.mapping;
    && m.lowest == Total(Concat(ps[..|ps| - 1])) && m.highest + 1 == Total(Concat(ps))
    && Gapless(ps[..|ps| - 1])
  }

  /** The accumulator and its runs are what the segments say. */
  ghost predicate Accounts(st: Seg, runs: seq<Run>, ps: seq<Part>) {
    && AllPlain(ps) && Gapless(ps)
    && runs == Concat(ps) && st.n == |runs| && st.vcn == Total(runs)
    && (ps == [] <==> st.n == 0)
    && (ps != [] ==> var m := ps[0].piece.h.mapping; st.alloc == m.alloc && st.size == m.data && st.init == m.init)
  }

  lemma {:induction false} TotalPositive(runs: seq<Run>, clusters: int)
    requires InVolume(runs, clusters) && runs != []
    ensures Total(runs) > 0
  {
    assert RunInside(runs[|runs| - 1], clusters);
  }

  lemma {:induction false} TotalMonotone(runs: seq<Run>, i: nat)
    requires i <= |runs|
    ensures Total(runs[..i]) <= Total(runs)
  {
    if i == |runs| {
      assert runs[..i] == runs;
    } else {
      TotalMonotone(runs[..|runs| - 1], i);
      assert runs[..|runs| - 1][..i] == runs[..i];
    }
  }

  /** The sum of the new runs' counts, guarding against 64-bit wrap. */
  method SumCounts(runs: seq<Run>) returns (ok: bool, sum: u64)
    ensures ok <==> Total(runs) < TWO64
    ensures ok ==> sum == Total(runs)
  {
    sum := 0;
    var i := 0;
    while i < |runs|
      invariant 0 <= i <= |runs| && sum == Total(runs[..i])
    {
      assert runs[..i + 1][..i] == runs[..i];
      if Add64(sum, runs[i].count) < sum {
        TotalMonotone(runs, i + 1);
        return false, sum;
      }
      sum := sum + runs[i].count;
      i := i + 1;
    }
    assert runs[..|runs|] == runs;
    ok := true;
  }

  /** The refusals of segment() before it decodes. */
  function SegmentFault(h: Header): int {
    if h.nonresident == 0 || h.mapping.NoMapping? then E_RESIDENT
    else if h.flags / 0x8000 % 2 == 1 then E_SPARSE
    else if h.flags / 0x4000 % 2 == 1 then E_ENCRYPTED
    else if (if h.mapping.lowest != 0 then h.flags % 2 == 1 else h.flags % 256 != 0) || h.mapping.unit != 0 then E_COMPRESSED
    else 0
  }

  /** A plain segment that starts at vcn, inside the volume, and ends where its own runs end. */
  ghost predicate Follows(g: Geometry, q: Part, vcn: int) {
    && Plain(q) && InVolume(q.runs, g.clusters)
    && q.piece.h.mapping.lowest == vcn && q.piece.h.mapping.highest + 1 == vcn + Total(q.runs) < TWO64
  }

  lemma {:induction false} FollowsUnique(g: Geometry, q: Part, other: Part, vcn: int)
    requires q.piece == other.piece && Follows(g, q, vcn) && Follows(g, other, vcn)
    ensures q == other
  {
    MapsToUnique(Pairs(q.piece.h, q.piece.body), q.runs, other.runs);
  }

  /** A segment as segment() takes it. */
  predicate Fresh(p: Piece) {
    p.h.kind == AT_DATA && p.h.nameLength == 0 && p.h.nonresident <= 1 && |p.body| == p.h.size
  }

  /** The checks of segment() on the runs decoded. */
  method CheckBounds(m: Mapping, runs: seq<Run>) returns (e: int, next: u64)
    requires m.Mapping? && (forall i :: 0 <= i < |runs| ==> 0 < runs[i].count)
    ensures e == 0 <==> runs != [] && m.highest + 1 == m.lowest + Total(runs) < TWO64
    ensures e == 0 ==> next == m.lowest + Total(runs)
  {
    var ok, sum := SumCounts(runs);
    if !ok || Add64(m.lowest, sum) < m.lowest {
      return E_SEGMENT_VCN, 0;
    }
    next := m.lowest + sum;
    if runs != [] {
      assert runs[|runs| - 1].count > 0;
    }
    e := if |runs| == 0 || m.highest != Sub64(next, 1) then E_SEGMENT_VCN else 0;
  }

  /** The part of segment() that judges the segment by itself: its runs go to out[base..base + k). It
      succeeds whenever the segment fits and there is room. */
  method ReadSegment(g: Geometry, p: Piece, vcn: u64, out: array<Run>, base: nat, cap: nat, ghost want: Part)
    returns (e: int, k: nat, next: u64)
    requires Fresh(p) && base + cap <= out.Length
    modifies out
    ensures out[..base] == old(out[..base])
    ensures e == 0 ==> 0 < k <= cap && Follows(g, Part(p, out[base..base + k]), vcn) && next == vcn + Total(out[base..base + k])
    ensures want.piece == p && Follows(g, want, vcn) && |want.runs| <= cap ==> e == 0
  {
    k, next := 0, 0;
    e := SegmentFault(p.h);
    if e != 0 {
      return;
    }
    if p.h.mapping.lowest != vcn {
      return E_GAP, 0, 0;
    }
    e, k := DecodeRuns(g, p.h, p.body, out, base, cap, want.runs);
    if e != 0 {
      return;
    }
    var runs := out[base..base + k];
    assert forall i :: 0 <= i < |runs| ==> RunInside(runs[i], g.clusters);
    e, next := CheckBounds(p.h.mapping, runs);
    if want.piece == p && Follows(g, want, vcn) {
      MapsToUnique(Pairs(p.h, p.body), want.runs, runs);
    }
  }

  /** ReadSegment, with the new runs appended to those before. */
  method AppendRuns(g: Geometry, p: Piece, vcn: u64, out: array<Run>, base: nat, cap: nat, ghost want: Part)
    returns (e: int, k: nat, next: u64, ghost added: seq<Run>)
    requires Fresh(p) && base <= cap <= out.Length && InVolume(out[..base], g.clusters)
    modifies out
    ensures e == 0 ==> |added| == k && k <= cap - base && out[..base + k] == old(out[..base]) + added
    ensures e == 0 ==> Follows(g, Part(p, added), vcn) && next == vcn + Total(added) && InVolume(out[..base + k], g.clusters)
    ensures want.piece == p && Follows(g, want, vcn) && |want.runs| <= cap - base ==> e == 0
  {
    ghost var before := out[..base];
    added := [];
    e, k, next := ReadSegment(g, p, vcn, out, base, cap - base, want);
    if e == 0 {
      added := out[base..base + k];
      InVolumeAppend(before, added, g.clusters);
      assert out[..base + k] == before + added;
    }
  }

  /** The first segment gives the sizes. */
  function Advanced(st: Seg, k: nat, next: u64, m: Mapping): Seg
    requires m.Mapping?
  {
    if st.vcn == 0 then Seg(st.n + k, next, m.alloc, m.data, m.init) else Seg(st.n + k, next, st.alloc, st.size, st.init)
  }

  /** segment: append one unnamed $DATA segment to out[..st.n]; whenever it fits and there is room. */
  method Segment(g: Geometry, p: Piece, st: Seg, out: array<Run>, cap: nat, ghost ps: seq<Part>, ghost want: Part)
    returns (e: int, st': Seg, ghost q: Part)
    requires Fresh(p) && cap <= out.Length && st.n <= cap && InVolume(out[..st.n], g.clusters)
    requires Accounts(st, out[..st.n], ps)
    modifies out
    ensures e == 0 ==> st'.n <= cap && InVolume(out[..st'.n], g.clusters) && Accounts(st', out[..st'.n], ps + [q])
    ensures e == 0 ==> q.piece == p && Follows(g, q, st.vcn)
    ensures want.piece == p && Follows(g, want, st.vcn) && st.n + |want.runs| <= cap ==> e == 0 && q == want
  {
    ghost var before := out[..st.n];
    st', q := st, Part(p, []);
    var k, next;
    ghost var added;
    e, k, next, added := AppendRuns(g, p, st.vcn, out, st.n, cap, want);
    if e != 0 {
      return;
    }
    q := Part(p, added);
    st' := Advanced(st, k, next, p.h.mapping);
    AccountsNext(g, st, before, ps, q, k, next);
    if want.piece == p && Follows(g, want, st.vcn) {
      FollowsUnique(g, q, want, st.vcn);
    }
  }

  lemma {:induction false} InVolumeAppend(a: seq<Run>, b: seq<Run>, clusters: int)
    requires InVolume(a, clusters) && InVolume(b, clusters)
    ensures InVolume(a + b, clusters)
  {
  }

  lemma {:induction false} AccountsNext(g: Geometry, st: Seg, before: seq<Run>, ps: seq<Part>, q: Part, k: nat, next: u64)
    requires Accounts(st, before, ps) && InVolume(before, g.clusters)
    requires k == |q.runs| && Follows(g, q, st.vcn) && next == st.vcn + Total(q.runs)
    ensures Accounts(Advanced(st, k, next, q.piece.h.mapping), before + q.runs, ps + [q])
  {
    var qs := ps + [q];
    assert qs[..|qs| - 1] == ps && AllPlain(qs);
    TotalConcat(before, q.runs);
    if ps != [] {
      TotalPositive(before, g.clusters);
    }
  }

  // ---- segments of a gapless list ------------------------------------------

  lemma {:induction false} ConcatTake(ps: seq<Part>, i: nat)
    requires i <= |ps|
    ensures Concat(ps[..i]) <= Concat(ps)
  {
    if i == |ps| {
      assert ps[..i] == ps;
    } else {
      ConcatTake(ps[..|ps| - 1], i);
      assert ps[..|ps| - 1][..i] == ps[..i];
    }
  }

  /** In a gapless list inside the volume that ends below 2^64, each segment fits where the ones before
      it end. */
  lemma {:induction false} GaplessFollows(g: Geometry, ps: seq<Part>, i: nat)
    requires AllPlain(ps) && Gapless(ps) && InVolume(Concat(ps), g.clusters) && Total(Concat(ps)) < TWO64 && i < |ps|
    ensures Follows(g, ps[i], Total(Concat(ps[..i])))
  {
    var init, q := ps[..|ps| - 1], ps[|ps| - 1];
    var before := Concat(init);
    assert Concat(ps) == before + q.runs;
    TotalConcat(before, q.runs);
    assert Plain(q);
    InVolumeParts(before, q.runs, g.clusters);
    if i < |ps| - 1 {
      assert AllPlain(init);
      GaplessFollows(g, init, i);
      assert init[..i] == ps[..i];
    }
  }

  lemma {:induction false} InVolumeParts(a: seq<Run>, b: seq<Run>, clusters: int)
    requires InVolume(a + b, clusters)
    ensures InVolume(a, clusters) && InVolume(b, clusters)
  {
    assert forall i :: 0 <= i < |a| ==> (a + b)[i] == a[i];
    assert forall i :: 0 <= i < |b| ==> (a + b)[|a| + i] == b[i];
  }
}
