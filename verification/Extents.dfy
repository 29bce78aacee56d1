/** Extents and what they mean: the sectors a list of half-open ranges names,
    as a sequence (file order) and as a set (the range test). */
module Extents {
  import opened Words

  /** Half-open [start, end), in 512-byte sectors. */
  datatype Extent = Extent(start: u64, end: u64)

  predicate NonEmpty(e: Extent) {
    e.start < e.end
  }

  predicate AllNonEmpty(es: seq<Extent>) {
    forall i :: 0 <= i < |es| ==> NonEmpty(es[i])
  }

  predicate In(e: Extent, x: int) {
    e.start <= x < e.end
  }

  predicate Meet(a: Extent, b: Extent) {
    a.start < b.end && b.start < a.end
  }

  /** The sectors start, start + 1, ..., end - 1. */
  function Span(start: int, end: int): (s: seq<int>)
    ensures |s| == if start < end then end - start else 0
    ensures forall i :: 0 <= i < |s| ==> s[i] == start + i
  {
    seq(if start < end then end - start else 0, i => start + i)
  }

  /** The logical sector sequence of a file-order list: its extents end to end. */
  function Sectors(es: seq<Extent>): seq<int> {
    if es == [] then [] else Span(es[0].start, es[0].end) + Sectors(es[1..])
  }

  /** Sector x lies in some extent of the list. */
  predicate Covers(es: seq<Extent>, x: int) {
    exists i :: 0 <= i < |es| && In(es[i], x)
  }

  /** Two lists name a common sector. */
  ghost predicate Share(a: seq<Extent>, b: seq<Extent>) {
    exists x :: Covers(a, x) && Covers(b, x)
  }

  /** No extent is empty and no two name a common sector. */
  ghost predicate Disjoint(es: seq<Extent>) {
    && AllNonEmpty(es)
    && forall i, j :: 0 <= i < j < |es| ==> !Meet(es[i], es[j])
  }

  /** Sorted, disjoint and non-touching: the canonical form of a sector set. */
  ghost predicate Normalised(es: seq<Extent>) {
    && AllNonEmpty(es)
    && forall i, j :: 0 <= i < j < |es| ==> es[i].end < es[j].start
  }

  /** File order with physically adjacent neighbours merged: maximal runs. */
  ghost predicate Coalesced(es: seq<Extent>) {
    && AllNonEmpty(es)
    && forall i, j :: 0 <= i && j == i + 1 && j < |es| ==> es[i].end != es[j].start
  }

  predicate NoRepeat<T(==)>(s: seq<T>) {
    forall i, j :: 0 <= i < j < |s| ==> s[i] != s[j]
  }

  lemma {:induction false} SectorsConcat(a: seq<Extent>, b: seq<Extent>)
    ensures Sectors(a + b) == Sectors(a) + Sectors(b)
  {
    if a == [] {
      assert a + b == b;
    } else {
      assert (a + b)[1..] == a[1..] + b;
      SectorsConcat(a[1..], b);
    }
  }

  /** One more extent at the end appends its span. */
  lemma {:induction false} SectorsAppend(es: seq<Extent>, e: Extent)
    ensures Sectors(es + [e]) == Sectors(es) + Span(e.start, e.end)
  {
    SectorsConcat(es, [e]);
    assert Sectors([e]) == Span(e.start, e.end) + Sectors([e][1..]);
    assert Sectors([e]) == Span(e.start, e.end);
  }

  lemma {:induction false} SectorsTake(es: seq<Extent>, k: nat)
    requires k <= |es|
    ensures Sectors(es) == Sectors(es[..k]) + Sectors(es[k..])
  {
    assert es == es[..k] + es[k..];
    SectorsConcat(es[..k], es[k..]);
  }

  lemma {:induction false} SectorsTakeNext(es: seq<Extent>, k: nat)
    requires k < |es|
    ensures Sectors(es[..k + 1]) == Sectors(es[..k]) + Span(es[k].start, es[k].end)
    ensures |Sectors(es[..k + 1])| <= |Sectors(es)|
    ensures Sectors(es[..k + 1]) == Sectors(es)[..|Sectors(es[..k + 1])|]
  {
    assert es[..k + 1] == es[..k] + [es[k]];
    SectorsAppend(es[..k], es[k]);
    SectorsTake(es, k + 1);
  }

  /** A sector is in the sequence exactly when the list covers it. */
  lemma {:induction false} SectorsMember(es: seq<Extent>, x: int)
    ensures x in Sectors(es) <==> Covers(es, x)
  {
    if es != [] {
      SectorsMember(es[1..], x);
      var head := Span(es[0].start, es[0].end);
      assert x in head <==> In(es[0], x) by {
        if In(es[0], x) { assert head[x - es[0].start] == x; }
      }
      if Covers(es[1..], x) {
        var i :| 0 <= i < |es[1..]| && In(es[1..][i], x);
        assert In(es[i + 1], x);
      }
      if Covers(es, x) && !In(es[0], x) {
        var i :| 0 <= i < |es| && In(es[i], x);
        assert In(es[1..][i - 1], x);
      }
    }
  }

  lemma {:induction false} SectorsMembers(es: seq<Extent>)
    ensures forall x :: x in Sectors(es) <==> Covers(es, x)
  {
    forall x ensures x in Sectors(es) <==> Covers(es, x) {
      SectorsMember(es, x);
    }
  }

  /** A disjoint list names every sector once: its sequence has no repeats. */
  lemma {:induction false} DisjointNoRepeat(es: seq<Extent>)
    requires Disjoint(es)
    ensures NoRepeat(Sectors(es))
  {
    if es != [] {
      DisjointNoRepeat(es[1..]);
      var head, tail := Span(es[0].start, es[0].end), Sectors(es[1..]);
      forall i, j | 0 <= i < |head| && 0 <= j < |tail|
        ensures head[i] != tail[j]
      {
        SectorsMember(es[1..], tail[j]);
        var k :| 0 <= k < |es[1..]| && In(es[1..][k], tail[j]);
        assert !Meet(es[0], es[k + 1]);
      }
    }
  }

  /** Two extents of a list that meet make its sequence repeat a sector. */
  lemma {:induction false} MeetRepeats(es: seq<Extent>, i: nat, j: nat)
    requires AllNonEmpty(es) && i < j < |es| && Meet(es[i], es[j])
    ensures !NoRepeat(Sectors(es))
  {
    var x := if es[i].start < es[j].start then es[j].start else es[i].start;
    SectorsTake(es, j);
    SectorsMember(es[..j], x);
    SectorsMember(es[j..], x);
    assert In(es[..j][i], x) && In(es[j..][0], x);
    var a, b := Sectors(es[..j]), Sectors(es[j..]);
    var p :| 0 <= p < |a| && a[p] == x;
    var q :| 0 <= q < |b| && b[q] == x;
    assert Sectors(es)[p] == Sectors(es)[|a| + q];
  }

  // ---- rearranged lists ---------------------------------------------------

  lemma {:induction false} MultisetCovers(a: seq<Extent>, b: seq<Extent>, x: int)
    requires multiset(a) == multiset(b) && Covers(a, x)
    ensures Covers(b, x)
  {
    var i :| 0 <= i < |a| && In(a[i], x);
    assert a[i] in multiset(b);
    var j :| 0 <= j < |b| && b[j] == a[i];
  }

  lemma {:induction false} MultisetNonEmpty(a: seq<Extent>, b: seq<Extent>)
    requires multiset(a) == multiset(b) && AllNonEmpty(a)
    ensures AllNonEmpty(b)
  {
    forall i | 0 <= i < |b| ensures NonEmpty(b[i]) {
      assert b[i] in multiset(a);
      var j :| 0 <= j < |a| && a[j] == b[i];
    }
  }

  lemma {:induction false} RemoveAt(s: seq<Extent>, p: nat)
    requires p < |s|
    ensures multiset(s[..p] + s[p + 1..]) == multiset(s) - multiset{s[p]}
  {
    assert s == s[..p] + [s[p]] + s[p + 1..];
  }

  lemma {:induction false} StillThere(s: seq<Extent>, i: nat, j: nat)
    requires i < j < |s|
    ensures s[j] in multiset(s) - multiset{s[i]}
  {
    RemoveAt(s, i);
    assert (s[..i] + s[i + 1..])[j - 1] == s[j];
  }

  /** Two occurrences in one list are two occurrences in any rearrangement. */
  lemma {:induction false} TwoOccurrences(b: seq<Extent>, i: nat, j: nat, a: seq<Extent>) returns (p: nat, q: nat)
    requires multiset(a) == multiset(b) && i < j < |b|
    ensures p < |a| && q < |a| && p != q && a[p] == b[i] && a[q] == b[j]
  {
    assert b[i] in multiset(a);
    p :| p < |a| && a[p] == b[i];
    var rest := a[..p] + a[p + 1..];
    RemoveAt(a, p);
    StillThere(b, i, j);
    assert b[j] in multiset(rest);
    var k :| 0 <= k < |rest| && rest[k] == b[j];
    q := if k < p then k else k + 1;
  }

  lemma {:induction false} MultisetDisjoint(a: seq<Extent>, b: seq<Extent>)
    requires multiset(a) == multiset(b) && Disjoint(a)
    ensures Disjoint(b)
  {
    MultisetNonEmpty(a, b);
    forall i, j | 0 <= i < j < |b| ensures !Meet(b[i], b[j]) {
      var p, q := TwoOccurrences(b, i, j, a);
      assert p < q || q < p;
    }
  }

  // ---- the canonical form -------------------------------------------------

  lemma {:induction false} NormalisedTail(a: seq<Extent>)
    requires Normalised(a) && a != []
    ensures Normalised(a[1..])
    ensures forall x :: Covers(a[1..], x) <==> Covers(a, x) && a[0].end < x
  {
    forall x ensures Covers(a[1..], x) <==> Covers(a, x) && a[0].end < x {
      if Covers(a[1..], x) {
        var i :| 0 <= i < |a[1..]| && In(a[1..][i], x);
        assert In(a[i + 1], x);
      }
      if Covers(a, x) && a[0].end < x {
        var i :| 0 <= i < |a| && In(a[i], x);
        assert In(a[1..][i - 1], x);
      }
    }
  }

  /** In a normalised list the first extent starts at the least covered sector and
      ends at the first uncovered one. */
  lemma {:induction false} NormalisedFirst(a: seq<Extent>)
    requires Normalised(a) && a != []
    ensures Covers(a, a[0].start) && !Covers(a, a[0].end)
    ensures forall x :: Covers(a, x) ==> a[0].start <= x
    ensures forall x :: a[0].start <= x < a[0].end ==> Covers(a, x)
  {
    assert In(a[0], a[0].start);
    forall x | a[0].start <= x < a[0].end ensures Covers(a, x) {
      assert In(a[0], x);
    }
  }

  /** Normalised lists are a normal form: equal exactly when they name the same sectors. */
  lemma {:induction false} NormalisedUnique(a: seq<Extent>, b: seq<Extent>)
    requires Normalised(a) && Normalised(b)
    requires forall x :: Covers(a, x) <==> Covers(b, x)
    ensures a == b
  {
    if a != [] { NormalisedFirst(a); }
    if b != [] { NormalisedFirst(b); }
    if a != [] && b != [] {
      assert a[0] == b[0];
      NormalisedTail(a);
      NormalisedTail(b);
      NormalisedUnique(a[1..], b[1..]);
      assert a == [a[0]] + a[1..] && b == [b[0]] + b[1..];
    }
  }

  /** Appending x to a sorted merge: extend the last extent or start a new one. */
  function Merge(acc: seq<Extent>, x: Extent): seq<Extent> {
    if acc != [] && x.start <= acc[|acc| - 1].end then
      acc[|acc| - 1 := Extent(acc[|acc| - 1].start, if x.end > acc[|acc| - 1].end then x.end else acc[|acc| - 1].end)]
    else
      acc + [x]
  }

  lemma {:induction false} MergeKeeps(acc: seq<Extent>, x: Extent)
    requires Normalised(acc) && NonEmpty(x)
    requires acc != [] ==> acc[|acc| - 1].start <= x.start
    ensures Normalised(Merge(acc, x))
    ensures Merge(acc, x)[|Merge(acc, x)| - 1].start <= x.start
    ensures forall y :: Covers(Merge(acc, x), y) <==> Covers(acc, y) || In(x, y)
  {
    var m, k := Merge(acc, x), |acc| - 1;
    forall y ensures Covers(m, y) <==> Covers(acc, y) || In(x, y) {
      if Covers(m, y) {
        var i :| 0 <= i < |m| && In(m[i], y);
        if i < |acc| && In(acc[i], y) { assert Covers(acc, y); }
      }
      if Covers(acc, y) {
        var i :| 0 <= i < |acc| && In(acc[i], y);
        assert In(m[i], y);
      }
      if In(x, y) {
        assert In(m[|m| - 1], y);
      }
    }
  }
}
