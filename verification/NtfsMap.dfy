/** kernel/dm-paguro/pg_ntfs.c: from the runs of a file, in clusters, to its extents, in sectors
    (pg_ntfs_extents), and the agreement of the two ways the module translates a file offset. */
module NtfsMap {
  import opened Words
  import opened Extents
  import opened Runlist
  import opened Ntfs
  import NtfsWalk
  import Claim

  // ---- sectors of clusters -------------------------------------------------

  /** The sectors of a cluster sequence, spc to the cluster. */
  function Spread(cs: seq<int>, spc: nat): seq<int> {
    if cs == [] then [] else Spread(cs[..|cs| - 1], spc) + Span(cs[|cs| - 1] * spc, cs[|cs| - 1] * spc + spc)
  }

  lemma {:induction false} SpreadLength(cs: seq<int>, spc: nat)
    ensures |Spread(cs, spc)| == |cs| * spc
  {
    if cs != [] {
      SpreadLength(cs[..|cs| - 1], spc);
      TimesPlus(|cs| - 1, 1, spc);
    }
  }

  /** Sector l of the file lies in its cluster l / spc, at l % spc. */
  lemma {:induction false} SpreadAt(cs: seq<int>, spc: nat, l: nat)
    requires spc > 0 && l < |Spread(cs, spc)|
    ensures l / spc < |cs| && Spread(cs, spc)[l] == cs[l / spc] * spc + l % spc
  {
    if cs != [] {
      var init, k := cs[..|cs| - 1], |cs| - 1;
      SpreadLength(init, spc);
      if l < |Spread(init, spc)| {
        SpreadAt(init, spc, l);
        assert init[l / spc] == cs[l / spc];
      } else {
        SpreadLast(cs, spc, l);
        DivOf(l, k, spc);
      }
    }
  }

  lemma {:induction false} SpreadLast(cs: seq<int>, spc: nat, l: nat)
    requires cs != [] && (|cs| - 1) * spc <= l < |Spread(cs, spc)|
    ensures l < (|cs| - 1) * spc + spc && Spread(cs, spc)[l] == cs[|cs| - 1] * spc + (l - (|cs| - 1) * spc)
  {
    SpreadLength(cs[..|cs| - 1], spc);
  }

  lemma {:induction false} SpreadConcat(a: seq<int>, b: seq<int>, spc: nat)
    ensures Spread(a + b, spc) == Spread(a, spc) + Spread(b, spc)
  {
    if b == [] {
      assert a + b == a;
    } else {
      var init, x := b[..|b| - 1], b[|b| - 1];
      SpreadConcat(a, init, spc);
      assert (a + b)[..|a + b| - 1] == a + init && (a + b)[|a + b| - 1] == x;
      var last := Span(x * spc, x * spc + spc);
      assert Spread(a + b, spc) == Spread(a + init, spc) + last;
      assert Spread(b, spc) == Spread(init, spc) + last;
    }
  }

  lemma {:induction false} SpreadSpan(start: nat, count: nat, spc: nat)
    ensures Spread(Span(start, start + count), spc) == Span(start * spc, (start + count) * spc)
    decreases count
  {
    if count > 0 {
      var s, last := Span(start, start + count), start + count - 1;
      SpreadSpan(start, count - 1, spc);
      assert s[..|s| - 1] == Span(start, last) && s[|s| - 1] == last;
      TimesPlus(last, 1, spc);
      MulMono(start, last, spc);
      assert Span(start * spc, (start + count) * spc) == Span(start * spc, last * spc) + Span(last * spc, last * spc + spc);
    }
  }

  // ---- pg_ntfs_extents -----------------------------------------------------

  /** The file's sectors in order: every sector of every cluster the runs map. */
  ghost function FileSectors(g: Geometry, runs: seq<Run>): seq<int> {
    Spread(Clusters(runs), g.clusterBytes / 512)
  }

  lemma {:induction false} ClustersAppend(runs: seq<Run>, i: nat)
    requires i < |runs| && runs[i].lcn + runs[i].count < TWO64
    ensures Clusters(runs[..i + 1]) == Clusters(runs[..i]) + Span(runs[i].lcn, runs[i].lcn + runs[i].count)
  {
    var es := Ranges(runs);
    assert Ranges(runs[..i]) == es[..i] && Ranges(runs[..i + 1]) == es[..i + 1];
    SectorsTakeNext(es, i);
  }

  /** A run's sectors, as one extent. */
  method ExtentOf(g: Geometry, r: Run) returns (x: Option<Extent>)
    requires Sane(g) && r.count > 0
    ensures x.Some? <==> RunInside(r, g.clusters)
    ensures x.Some? ==> x.value.start == r.lcn * (g.clusterBytes / 512) && x.value.end == (r.lcn + r.count) * (g.clusterBytes / 512)
    ensures x.Some? ==> NonEmpty(x.value) && x.value.end <= g.sectors
  {
    var spc := g.clusterBytes / 512;
    ExtentFits(g, r);
    if r.lcn > (TWO64 - 1) / spc || Add64(r.lcn, r.count) < r.lcn || r.lcn + r.count > (TWO64 - 1) / spc {
      return None;
    }
    TimesBelow(r.lcn, spc);
    TimesBelow(r.lcn + r.count, spc);
    var start, end := r.lcn * spc, (r.lcn + r.count) * spc;
    x := if end > g.sectors then None else Some(Extent(start, end));
  }

  /** A run inside the volume passes the overflow guards, and only such a run ends inside it. */
  lemma {:induction false} ExtentFits(g: Geometry, r: Run)
    requires Sane(g) && r.count > 0
    ensures g.clusterBytes / 512 > 0
    ensures var spc := g.clusterBytes / 512;
            && r.lcn * spc < (r.lcn + r.count) * spc
            && ((r.lcn + r.count) * spc <= g.sectors <==> r.lcn + r.count <= g.clusters)
            && (r.lcn + r.count <= g.clusters ==> r.lcn + r.count <= (TWO64 - 1) / spc)
  {
    SectorsFit(g.clusters, g.clusterBytes);
    SpanFits(r.lcn, r.count, g.clusters, g.clusterBytes / 512);
  }

  lemma {:induction false} SpanFits(a: nat, n: nat, clusters: nat, m: nat)
    requires m > 0 && n > 0 && clusters * m < TWO64
    ensures a * m < (a + n) * m
    ensures (a + n) * m <= clusters * m <==> a + n <= clusters
    ensures a + n <= clusters ==> a + n <= (TWO64 - 1) / m
  {
    TimesPlus(a, n, m);
    MulAtLeast(m, n);
    if a + n <= clusters {
      MulMono(a + n, clusters, m);
      GuardExact(a + n, m);
    } else {
      MulMono(clusters + 1, a + n, m);
      TimesPlus(clusters, 1, m);
    }
  }

  /** acc holds the sectors of the first i runs, coalesced, inside the volume. */
  ghost predicate Mapped(g: Geometry, runs: seq<Run>, i: nat, acc: seq<Extent>) {
    && i <= |runs| && |acc| <= i && Coalesced(acc)
    && (forall j :: 0 <= j < |acc| ==> acc[j].end <= g.sectors)
    && Sectors(acc) == FileSectors(g, runs[..i])
  }

  lemma {:induction false} FileSectorsNext(g: Geometry, runs: seq<Run>, i: nat, x: Extent)
    requires i < |runs| && runs[i].lcn + runs[i].count < TWO64
    requires var spc := g.clusterBytes / 512; x.start == runs[i].lcn * spc && x.end == (runs[i].lcn + runs[i].count) * spc
    ensures FileSectors(g, runs[..i + 1]) == FileSectors(g, runs[..i]) + Span(x.start, x.end)
  {
    var spc, r := g.clusterBytes / 512, runs[i];
    ClustersAppend(runs, i);
    SpreadConcat(Clusters(runs[..i]), Span(r.lcn, r.lcn + r.count), spc);
    SpreadSpan(r.lcn, r.count, spc);
  }

  lemma {:induction false} MappedNext(g: Geometry, runs: seq<Run>, i: nat, acc: seq<Extent>, x: Extent)
    requires i < |runs| && Mapped(g, runs, i, acc) && runs[i].lcn + runs[i].count < TWO64
    requires var spc := g.clusterBytes / 512; x.start == runs[i].lcn * spc && x.end == (runs[i].lcn + runs[i].count) * spc
    requires NonEmpty(x) && x.end <= g.sectors
    ensures Mapped(g, runs, i + 1, Claim.Join(acc, x))
  {
    FileSectorsNext(g, runs, i, x);
    Claim.JoinKeeps(acc, x);
    Claim.JoinSectors(acc, x);
  }

  /** pg_ntfs_extents: the runs as sector extents in file order, neighbours coalesced. */
  method ToExtents(g: Geometry, runs: seq<Run>, out: array<Extent>, cap: nat) returns (e: int, k: nat)
    requires Sane(g) && cap <= out.Length && forall i :: 0 <= i < |runs| ==> runs[i].count > 0
    modifies out
    ensures e == 0 || e == E_OUTSIDE_VOLUME || e == E_TOO_MANY_EXTENTS
    ensures e == 0 ==> k <= cap && Mapped(g, runs, |runs|, out[..k]) && InVolume(runs, g.clusters)
    ensures e == E_OUTSIDE_VOLUME ==> !InVolume(runs, g.clusters)
    ensures e == E_TOO_MANY_EXTENTS ==> cap < |runs|
  {
    k := 0;
    assert Clusters(runs[..0]) == [];
    for i := 0 to |runs|
      invariant k <= cap && Mapped(g, runs, i, out[..k])
      invariant forall j :: 0 <= j < i ==> RunInside(runs[j], g.clusters)
    {
      var x := ExtentOf(g, runs[i]);
      if x.None? {
        assert !RunInside(runs[i], g.clusters);
        return E_OUTSIDE_VOLUME, k;
      }
      ghost var acc := out[..k];
      ClustersBelow(g, runs[i]);
      MappedNext(g, runs, i, acc, x.value);
      if k > 0 && out[k - 1].end == x.value.start {
        out[k - 1] := Extent(out[k - 1].start, x.value.end);
      } else {
        if k == cap {
          return E_TOO_MANY_EXTENTS, k;
        }
        out[k] := x.value;
        k := k + 1;
      }
      assert out[..k] == Claim.Join(acc, x.value);
    }
    e := 0;
  }

  // ---- the two translations ------------------------------------------------

  lemma {:induction false} Div512(k: nat, w: nat)
    ensures (k * 512 + w) / 512 == k + w / 512
  {
  }

  lemma {:induction false} Below512(w: nat, spc: nat)
    requires w < spc * 512
    ensures w / 512 < spc
  {
  }

  /** Byte offsets in clusters and sectors: the cluster, and the sector inside it. */
  lemma {:induction false} OffsetParts(off: nat, cb: nat)
    requires cb > 0 && cb % 512 == 0
    ensures cb / 512 > 0
    ensures off / 512 / (cb / 512) == off / cb && off / 512 % (cb / 512) == off % cb / 512
  {
    var spc, q, w := cb / 512, off / cb, off % cb;
    DivParts(off, cb);
    assert q * cb == q * spc * 512 by { SectorsFit(q, cb); }
    Div512(q * spc, w);
    Below512(w, spc);
    DivOf(off / 512, q, spc);
  }

  lemma {:induction false} AddressParts(lcn: nat, cb: nat, within: nat)
    requires cb > 0 && cb % 512 == 0
    ensures Address(lcn, cb, within) == lcn * (cb / 512) + within / 512
  {
    SectorsFit(lcn, cb);
    Div512(lcn * (cb / 512), within);
  }

  /** sector_of and view A's gather agree: on every byte offset the runs map, the sector found in the
      runs is the one at that logical sector of their extents. */
  lemma {:induction false} SectorOfIsGather(g: Geometry, runs: seq<Run>, es: seq<Extent>, off: nat)
    requires Sane(g) && InVolume(runs, g.clusters) && Sectors(es) == FileSectors(g, runs)
    requires Vcn(off, g.clusterBytes) < |Clusters(runs)| && Clusters(runs)[Vcn(off, g.clusterBytes)] >= 0
    ensures off / 512 < |Sectors(es)| && SectorAt(g.clusterBytes, runs, off) == Sectors(es)[off / 512]
  {
    var cb, cs := g.clusterBytes, Clusters(runs);
    var spc := cb / 512;
    OffsetParts(off, cb);
    SpreadLength(cs, spc);
    DivParts(off / 512, spc);
    MulMono(off / cb + 1, |cs|, spc);
    TimesPlus(off / cb, 1, spc);
    SpreadAt(cs, spc, off / 512);
    AddressParts(cs[off / cb], cb, off % cb);
  }

  /** Past the last run neither finds anything. */
  lemma {:induction false} BothEnd(g: Geometry, runs: seq<Run>, es: seq<Extent>, off: nat)
    requires Sane(g) && Sectors(es) == FileSectors(g, runs)
    ensures Vcn(off, g.clusterBytes) < |Clusters(runs)| <==> off / 512 < |Sectors(es)|
  {
    var cb := g.clusterBytes;
    OffsetParts(off, cb);
    SpreadLength(Clusters(runs), cb / 512);
    DivBelow(off / 512, cb / 512, |Clusters(runs)|);
  }

  /** Both translations, side by side, on any byte offset. */
  method TranslateBoth(g: Geometry, runs: seq<Run>, file: seq<Extent>, off: u64) returns (ok: bool, a: u64, left: u64, b: u64)
    requires Sane(g) && InVolume(runs, g.clusters) && Mapped(g, runs, |runs|, file)
    ensures ok <==> off / 512 < |Sectors(file)|
    ensures left > 0 <==> ok
    ensures ok ==> a == b == Sectors(file)[off / 512]
  {
    assert runs[..|runs|] == runs;
    BothEnd(g, runs, file, off);
    ok, a := SectorOf(g, runs, off);
    left, b := Claim.Gather(file, off / 512);
    if ok {
      SectorOfIsGather(g, runs, file, off);
    }
  }

  // ---- what a claim may rely on --------------------------------------------

  lemma {:induction false} ClustersTotal(runs: seq<Run>)
    requires forall i :: 0 <= i < |runs| ==> runs[i].lcn + runs[i].count < TWO64
    ensures |Clusters(runs)| == NtfsWalk.Total(runs)
  {
    if runs != [] {
      var init := runs[..|runs| - 1];
      ClustersTotal(init);
      ClustersAppend(runs, |runs| - 1);
      assert runs[..|runs| - 1 + 1] == runs;
    }
  }

  /** The extents of an accepted file hold its data: as many sectors as its size. */
  lemma {:induction false} DataFits(g: Geometry, runs: seq<Run>, size: nat)
    requires Sane(g) && InVolume(runs, g.clusters) && size <= NtfsWalk.Total(runs) * g.clusterBytes
    ensures size / 512 <= |FileSectors(g, runs)|
  {
    forall i | 0 <= i < |runs| ensures runs[i].lcn + runs[i].count < TWO64 {
      ClustersBelow(g, runs[i]);
    }
    ClustersTotal(runs);
    SpreadLength(Clusters(runs), g.clusterBytes / 512);
    SectorsFit(NtfsWalk.Total(runs), g.clusterBytes);
  }

  /** Every mapped sector lies in the volume. */
  lemma {:induction false} SectorsInside(es: seq<Extent>, sectors: int)
    requires forall j :: 0 <= j < |es| ==> es[j].end <= sectors
    ensures forall i :: 0 <= i < |Sectors(es)| ==> 0 <= Sectors(es)[i] < sectors
  {
    forall i | 0 <= i < |Sectors(es)| ensures 0 <= Sectors(es)[i] < sectors {
      SectorsMember(es, Sectors(es)[i]);
      var k :| 0 <= k < |es| && In(es[k], Sectors(es)[i]);
    }
  }

  // ---- gapless, said of virtual clusters -----------------------------------

  lemma {:induction false} ClustersConcat(a: seq<Run>, b: seq<Run>)
    ensures Clusters(a + b) == Clusters(a) + Clusters(b)
  {
    assert Ranges(a + b) == Ranges(a) + Ranges(b);
    SectorsConcat(Ranges(a), Ranges(b));
  }

  /** Runs below 2^64. */
  ghost predicate Bounded(runs: seq<Run>) {
    forall i :: 0 <= i < |runs| ==> runs[i].lcn + runs[i].count < TWO64
  }

  lemma {:induction false} BoundedParts(a: seq<Run>, b: seq<Run>)
    requires Bounded(a + b)
    ensures Bounded(a) && Bounded(b)
  {
    assert forall i :: 0 <= i < |a| ==> (a + b)[i] == a[i];
    assert forall i :: 0 <= i < |b| ==> (a + b)[|a| + i] == b[i];
  }

  /** A stretch of virtual clusters and the logical clusters it maps them to. */
  datatype Stretch = Stretch(lowest: int, highest: int, clusters: seq<int>)

  ghost function Laid(ss: seq<Stretch>): seq<int> {
    if ss == [] then [] else Laid(ss[..|ss| - 1]) + ss[|ss| - 1].clusters
  }

  /** Each stretch starts where the one before stopped and is as long as its bounds say. */
  ghost predicate EndToEnd(ss: seq<Stretch>) {
    ss == [] ||
    var x := ss[|ss| - 1];
    EndToEnd(ss[..|ss| - 1]) && x.lowest == |Laid(ss[..|ss| - 1])| && x.highest + 1 == x.lowest + |x.clusters|
  }

  lemma {:induction false} StretchAt(ss: seq<Stretch>, i: nat, v: int)
    requires EndToEnd(ss) && i < |ss| && ss[i].lowest <= v <= ss[i].highest
    ensures 0 <= ss[i].lowest && v - ss[i].lowest < |ss[i].clusters| && v < |Laid(ss)| && Laid(ss)[v] == ss[i].clusters[v - ss[i].lowest]
  {
    var init := ss[..|ss| - 1];
    assert Laid(ss) == Laid(init) + ss[|ss| - 1].clusters;
    if i < |ss| - 1 {
      StretchAt(init, i, v);
    }
  }

  lemma {:induction false} StretchCovering(ss: seq<Stretch>, v: nat) returns (i: nat)
    requires EndToEnd(ss) && v < |Laid(ss)|
    ensures i < |ss| && ss[i].lowest <= v <= ss[i].highest
  {
    i := |ss| - 1;
    if v < ss[i].lowest {
      i := StretchCovering(ss[..|ss| - 1], v);
    }
  }

  lemma {:induction false} StretchFind(ss: seq<Stretch>, cs: seq<int>, v: nat) returns (i: nat)
    requires EndToEnd(ss) && Laid(ss) == cs && v < |cs|
    ensures i < |ss| && 0 <= ss[i].lowest <= v <= ss[i].highest
    ensures v - ss[i].lowest < |ss[i].clusters| && cs[v] == ss[i].clusters[v - ss[i].lowest]
  {
    i := StretchCovering(ss, v);
    StretchAt(ss, i, v);
  }

  /** A file's segments as stretches. */
  ghost function Stretches(ps: seq<NtfsWalk.Part>): (ss: seq<Stretch>)
    requires NtfsWalk.AllPlain(ps)
    ensures |ss| == |ps|
  {
    if ps == [] then []
    else
      var q := ps[|ps| - 1];
      assert NtfsWalk.Plain(q);
      Stretches(ps[..|ps| - 1]) + [Stretch(q.piece.h.mapping.lowest, q.piece.h.mapping.highest, Clusters(q.runs))]
  }

  /** Stretch i is segment i: its bounds, and its own runs' clusters. */
  lemma {:induction false} StretchOf(ps: seq<NtfsWalk.Part>, i: nat)
    requires NtfsWalk.AllPlain(ps) && i < |ps|
    ensures ps[i].piece.h.mapping.Mapping?
    ensures Stretches(ps)[i] == Stretch(ps[i].piece.h.mapping.lowest, ps[i].piece.h.mapping.highest, Clusters(ps[i].runs))
  {
    assert NtfsWalk.Plain(ps[i]);
    if i < |ps| - 1 {
      StretchOf(ps[..|ps| - 1], i);
    }
  }

  /** The segments of an accepted walk lie end to end, and laid out they are the file's clusters: every
      virtual cluster up to the total is in the bounds of a segment, which maps it. */
  lemma {:induction false} SegmentsEndToEnd(ps: seq<NtfsWalk.Part>)
    requires NtfsWalk.AllPlain(ps) && NtfsWalk.Gapless(ps) && Bounded(NtfsWalk.Concat(ps))
    ensures EndToEnd(Stretches(ps)) && Laid(Stretches(ps)) == Clusters(NtfsWalk.Concat(ps))
  {
    if ps != [] {
      var init, q := ps[..|ps| - 1], ps[|ps| - 1];
      var before, all := NtfsWalk.Concat(init), NtfsWalk.Concat(ps);
      BoundedParts(before, q.runs);
      SegmentsEndToEnd(init);
      ClustersConcat(before, q.runs);
      ClustersTotal(before);
      ClustersTotal(all);
      LaidNext(Stretches(init), Stretches(ps));
    } else {
      assert Ranges([]) == [];
    }
  }

  lemma {:induction false} LaidNext(init: seq<Stretch>, ss: seq<Stretch>)
    requires |ss| == |init| + 1 && ss == init + [ss[|init|]]
    ensures ss[..|ss| - 1] == init && Laid(ss) == Laid(init) + ss[|init|].clusters
  {
  }

  /** Virtual cluster v lies in the segment's bounds, and cs has it where the segment's own runs put it. */
  ghost predicate PlacedBy(q: NtfsWalk.Part, cs: seq<int>, v: nat) {
    var m, own := q.piece.h.mapping, Clusters(q.runs);
    m.Mapping? && m.lowest <= v <= m.highest && v < |cs| && v - m.lowest < |own| && cs[v] == own[v - m.lowest]
  }

  /** Each stretch is its segment's. */
  ghost predicate StretchesOf(ps: seq<NtfsWalk.Part>, ss: seq<Stretch>) {
    |ss| == |ps| && forall i :: 0 <= i < |ss| ==> IsStretch(ps[i], ss[i])
  }

  ghost predicate IsStretch(q: NtfsWalk.Part, s: Stretch) {
    q.piece.h.mapping.Mapping? && s == Stretch(q.piece.h.mapping.lowest, q.piece.h.mapping.highest, Clusters(q.runs))
  }

  lemma {:induction false} AllStretches(ps: seq<NtfsWalk.Part>)
    requires NtfsWalk.AllPlain(ps)
    ensures StretchesOf(ps, Stretches(ps))
  {
    forall i | 0 <= i < |ps| ensures IsStretch(ps[i], Stretches(ps)[i]) {
      StretchOf(ps, i);
    }
  }

  lemma {:induction false} FindPlaced(ps: seq<NtfsWalk.Part>, ss: seq<Stretch>, cs: seq<int>, v: nat) returns (i: nat)
    requires StretchesOf(ps, ss) && EndToEnd(ss) && Laid(ss) == cs && v < |cs|
    ensures i < |ps| && PlacedBy(ps[i], cs, v)
  {
    i := StretchFind(ss, cs, v);
    assert IsStretch(ps[i], ss[i]);
  }

  /** Hence every virtual cluster below the total lies in some segment's bounds and is where that
      segment's own runs put it, however many segments come before and after: there is no gap. */
  lemma {:induction false} VcnInSegment(ps: seq<NtfsWalk.Part>, cs: seq<int>, v: nat) returns (i: nat)
    requires NtfsWalk.AllPlain(ps) && NtfsWalk.Gapless(ps) && Bounded(NtfsWalk.Concat(ps))
    requires cs == Clusters(NtfsWalk.Concat(ps)) && v < |cs|
    ensures i < |ps| && PlacedBy(ps[i], cs, v)
  {
    SegmentsEndToEnd(ps);
    AllStretches(ps);
    i := FindPlaced(ps, Stretches(ps), cs, v);
  }
}
