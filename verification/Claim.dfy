/** kernel/dm-paguro/pg_claim.c: what the module does with a file's extents
    once they are derived: normal form, intersection, growth, comparison, gather. */
module Claim {
  import opened Words
  import opened Extents
  import Range

  // ---- file-order lists: uniqueness of the maximal-run decomposition ------

  /** The old list is the new one except that its last extent may have been extended. */
  predicate Grows(old_: seq<Extent>, new_: seq<Extent>) {
    && 0 < |old_| <= |new_|
    && old_[..|old_| - 1] == new_[..|old_| - 1]
    && new_[|old_| - 1].start == old_[|old_| - 1].start
    && new_[|old_| - 1].end >= old_[|old_| - 1].end
  }

  lemma {:induction false} SectorsHead(es: seq<Extent>, i: nat)
    requires es != [] && NonEmpty(es[0])
    ensures |Sectors(es)| >= es[0].end - es[0].start
    ensures i < es[0].end - es[0].start ==> Sectors(es)[i] == es[0].start + i
    ensures es[0].end - es[0].start + i < |Sectors(es)| ==>
              Sectors(es)[es[0].end - es[0].start + i] == Sectors(es[1..])[i]
  {
  }

  /** The sequence of a coalesced list first breaks step exactly where its first extent ends. */
  lemma {:induction false} FirstBreak(es: seq<Extent>)
    requires Coalesced(es) && es != []
    ensures var n := es[0].end - es[0].start;
            |es| > 1 ==> n < |Sectors(es)| && Sectors(es)[n] != es[0].end
    ensures |es| == 1 ==> |Sectors(es)| == es[0].end - es[0].start
  {
    if |es| > 1 {
      SectorsHead(es, 0);
      SectorsHead(es[1..], 0);
      assert es[1..][0] == es[1];
    } else {
      assert Sectors(es[1..]) == [];
    }
  }

  lemma {:induction false} GrowsOne(a: seq<Extent>, b: seq<Extent>)
    requires Coalesced(a) && Coalesced(b) && |a| == 1 && b != []
    ensures Grows(a, b) <==> Sectors(a) <= Sectors(b)
  {
    FirstBreak(a);
    FirstBreak(b);
    SectorsHead(b, 0);
    assert Sectors(a) == Span(a[0].start, a[0].end);
    assert Span(b[0].start, b[0].end) <= Sectors(b);
    if Grows(a, b) {
      assert Sectors(a) <= Span(b[0].start, b[0].end);
    }
    if Sectors(a) <= Sectors(b) {
      assert Sectors(a)[0] == Sectors(b)[0];
    }
  }

  lemma {:induction false} GrowsTail(a: seq<Extent>, b: seq<Extent>)
    requires |a| > 1 && b != []
    ensures Grows(a, b) <==> a[0] == b[0] && Grows(a[1..], b[1..])
  {
    if |b| >= |a| {
      assert a[1..][..|a| - 2] == a[..|a| - 1][1..] && b[1..][..|a| - 2] == b[..|a| - 1][1..];
      assert a[..|a| - 1] == [a[0]] + a[..|a| - 1][1..] && b[..|a| - 1] == [b[0]] + b[..|a| - 1][1..];
    }
  }

  /** pg_claim_grows decides exactly whether every logical sector stayed where it was. */
  lemma {:induction false} GrowsExact(a: seq<Extent>, b: seq<Extent>)
    requires Coalesced(a) && Coalesced(b) && a != []
    ensures Grows(a, b) <==> Sectors(a) <= Sectors(b)
  {
    if b == [] {
      SectorsHead(a, 0);
    } else if |a| == 1 {
      GrowsOne(a, b);
    } else {
      assert Coalesced(a[1..]) && Coalesced(b[1..]);
      GrowsTail(a, b);
      GrowsExact(a[1..], b[1..]);
      if Sectors(a) <= Sectors(b) {
        PrefixSameFirst(a, b);
      }
      if a[0] == b[0] {
        var h := Span(a[0].start, a[0].end);
        PrefixTail(h, Sectors(a[1..]), Sectors(b[1..]));
      }
    }
  }

  lemma {:induction false} PrefixTail(h: seq<int>, a: seq<int>, b: seq<int>)
    ensures h + a <= h + b <==> a <= b
  {
    if h + a <= h + b {
      assert a == (h + a)[|h|..] && b == (h + b)[|h|..];
    }
  }

  lemma {:induction false} PrefixSameFirst(a: seq<Extent>, b: seq<Extent>)
    requires Coalesced(a) && Coalesced(b) && |a| > 1 && b != [] && Sectors(a) <= Sectors(b)
    ensures a[0] == b[0]
  {
    FirstBreak(a);
    FirstBreak(b);
    SectorsHead(a, 0);
    SectorsHead(b, 0);
  }

  /** Coalesced lists are a normal form: equal exactly when their sequences are. */
  lemma {:induction false} CoalescedUnique(a: seq<Extent>, b: seq<Extent>)
    requires Coalesced(a) && Coalesced(b) && Sectors(a) == Sectors(b)
    ensures a == b
  {
    if a == [] || b == [] {
      if a != [] { SectorsHead(a, 0); }
      if b != [] { SectorsHead(b, 0); }
    } else {
      GrowsExact(a, b);
      GrowsExact(b, a);
    }
  }

  // ---- pg_claim_normalise --------------------------------------------------

  datatype NormaliseError = TooManyExtents | SelfOverlap

  /** The loop of pg_claim_normalise as a fold: touching extents merge, an empty
      or overlapping one ends it. */
  function TouchAll(s: seq<Extent>): (r: Option<seq<Extent>>)
    ensures r.Some? ==> |r.value| <= |s|
  {
    if s == [] then Some([]) else
    match TouchAll(s[..|s| - 1])
    case None => None
    case Some(acc) =>
      var x := s[|s| - 1];
      if x.start >= x.end || (acc != [] && x.start < acc[|acc| - 1].end) then None
      else Some(Merge(acc, x))
  }

  lemma {:induction false} DisjointTake(s: seq<Extent>, i: nat)
    requires i < |s| && Disjoint(s[..i]) && NonEmpty(s[i])
    requires forall j :: 0 <= j < i ==> !Meet(s[j], s[i])
    ensures Disjoint(s[..i + 1])
  {
    forall j, k | 0 <= j < k < i + 1 ensures !Meet(s[j], s[k]) {
      if k < i { assert !Meet(s[..i][j], s[..i][k]); }
    }
    forall j | 0 <= j < i ensures NonEmpty(s[j]) { assert NonEmpty(s[..i][j]); }
  }

  /** The first i sorted extents are disjoint and acc is their normal form. */
  ghost predicate Touched(s: seq<Extent>, i: nat, acc: seq<Extent>) {
    Range.Merged(s, i, acc) && Disjoint(s[..i])
  }

  /** One accepted step keeps disjointness and the normal form. */
  lemma {:induction false} TouchStep(s: seq<Extent>, i: nat, acc: seq<Extent>)
    requires Range.Sorted(s) && i < |s| && Touched(s, i, acc)
    requires NonEmpty(s[i]) && (acc != [] ==> acc[|acc| - 1].end <= s[i].start)
    ensures Touched(s, i + 1, Merge(acc, s[i]))
  {
    MergeKeeps(acc, s[i]);
    forall x ensures Covers(Merge(acc, s[i]), x) <==> Covers(s[..i + 1], x) {
      Range.CoversTakeNext(s, i, x);
    }
    forall j | 0 <= j < i ensures !Meet(s[j], s[i]) {
      assert NonEmpty(s[..i][j]) && In(s[..i][j], s[j].end - 1);
      assert Covers(acc, s[j].end - 1);
    }
    DisjointTake(s, i);
  }

  /** A refused step shows an empty extent or two that meet. */
  lemma {:induction false} TouchRefuses(s: seq<Extent>, i: nat, acc: seq<Extent>)
    requires Range.Sorted(s) && i < |s| && Touched(s, i, acc)
    requires !NonEmpty(s[i]) || (acc != [] && s[i].start < acc[|acc| - 1].end)
    ensures !Disjoint(s)
  {
    if NonEmpty(s[i]) {
      var e := acc[|acc| - 1];
      assert In(e, e.end - 1);
      assert Covers(acc, e.end - 1);
      var j :| 0 <= j < i && In(s[..i][j], e.end - 1);
      assert Meet(s[j], s[i]);
    }
  }

  lemma {:induction false} TouchStaysNone(s: seq<Extent>, i: nat)
    requires i < |s| && TouchAll(s[..i]).None?
    ensures TouchAll(s[..i + 1]).None?
  {
    assert s[..i + 1][..i] == s[..i];
  }

  lemma {:induction false} TouchOneExact(s: seq<Extent>, i: nat, acc: seq<Extent>)
    requires Range.Sorted(s) && i < |s| && TouchAll(s[..i]) == Some(acc) && Touched(s, i, acc)
    ensures TouchAll(s[..i + 1]).Some? ==> Touched(s, i + 1, TouchAll(s[..i + 1]).value)
    ensures TouchAll(s[..i + 1]).None? ==> !Disjoint(s)
  {
    TouchAllNext(s, i, acc);
    if NonEmpty(s[i]) && (acc != [] ==> acc[|acc| - 1].end <= s[i].start) {
      TouchStep(s, i, acc);
    } else {
      TouchRefuses(s, i, acc);
    }
  }

  /** The fold succeeds exactly on disjoint lists, and yields the normal form. */
  lemma {:induction false} TouchAllExact(s: seq<Extent>, i: nat)
    requires Range.Sorted(s) && i <= |s|
    ensures TouchAll(s[..i]).Some? ==> Touched(s, i, TouchAll(s[..i]).value)
    ensures TouchAll(s[..i]).None? ==> !Disjoint(s)
  {
    if i > 0 {
      TouchAllExact(s, i - 1);
      match TouchAll(s[..i - 1]) {
        case None => TouchStaysNone(s, i - 1);
        case Some(acc) => TouchOneExact(s, i - 1, acc);
      }
    }
  }

  lemma {:induction false} TouchAllNext(s: seq<Extent>, i: nat, acc: seq<Extent>)
    requires i < |s| && TouchAll(s[..i]) == Some(acc)
    ensures TouchAll(s[..i + 1]) ==
            if s[i].start >= s[i].end || (acc != [] && s[i].start < acc[|acc| - 1].end) then None
            else Some(Merge(acc, s[i]))
  {
    assert s[..i + 1][..i] == s[..i];
  }

  /** One turn of the loop: extent i touches the last of out[..m] or starts a new one. */
  method TouchOne(out: array<Extent>, m: nat, i: nat) returns (m': nat)
    requires m <= i < out.Length && NonEmpty(out[i]) && (m > 0 ==> out[m - 1].end <= out[i].start)
    modifies out
    ensures m' <= i + 1 && out[..m'] == Merge(old(out[..m]), old(out[i]))
    ensures forall j :: i < j < out.Length ==> out[j] == old(out[j])
  {
    ghost var acc, x := out[..m], out[i];
    if m > 0 && out[i].start == out[m - 1].end {
      out[m - 1] := Extent(out[m - 1].start, out[i].end);
      m' := m;
    } else {
      out[m] := out[i];
      m' := m + 1;
    }
    assert out[..m'] == Merge(acc, x);
  }

  method TouchInPlace(out: array<Extent>, n: nat) returns (k: Option<nat>)
    requires n <= out.Length
    modifies out
    ensures k.Some? <==> TouchAll(old(out[..n])).Some?
    ensures k.Some? ==> k.value <= n && out[..k.value] == TouchAll(old(out[..n])).value
  {
    ghost var s := out[..n];
    var m: nat, i: nat := 0, 0;
    assert s[..0] == [];
    while i < n
      invariant m <= i <= n
      invariant TouchAll(s[..i]) == Some(out[..m])
      invariant forall j :: i <= j < n ==> out[j] == s[j]
    {
      TouchAllNext(s, i, out[..m]);
      if out[i].start >= out[i].end || (m > 0 && out[i].start < out[m - 1].end) {
        TouchAllNone(s, i + 1);
        return None;
      }
      m := TouchOne(out, m, i);
      i := i + 1;
    }
    assert s[..n] == s;
    k := Some(m);
  }

  lemma {:induction false} TouchAllNone(s: seq<Extent>, i: nat)
    requires i <= |s| && TouchAll(s[..i]).None?
    ensures TouchAll(s).None?
    decreases |s| - i
  {
    if i < |s| {
      assert s[..i + 1][..i] == s[..i];
      TouchAllNone(s, i + 1);
    } else {
      assert s[..i] == s;
    }
  }

  /** The copy and the sort of pg_claim_normalise. */
  method CopySorted(file: seq<Extent>, out: array<Extent>)
    requires |file| <= out.Length <= Range.MAX_OBJECTS
    modifies out
    ensures Range.Sorted(out[..|file|]) && multiset(out[..|file|]) == multiset(file)
  {
    var n := |file|;
    var i := 0;
    while i < n
      invariant 0 <= i <= n && out[..i] == file[..i]
    {
      out[i] := file[i];
      i := i + 1;
    }
    assert out[..n] == file;
    ghost var a := out[..];
    Range.Sort(out, n);
    assert a[..n] == file && out[..][..n] == out[..n];
  }

  /** Sorting does not change what the touching merge decides or the sectors it yields. */
  lemma {:induction false} SortedTouches(s: seq<Extent>, file: seq<Extent>)
    requires Range.Sorted(s) && multiset(s) == multiset(file)
    ensures TouchAll(s).Some? <==> Disjoint(file)
    ensures TouchAll(s).Some? ==> Normalised(TouchAll(s).value) && forall x :: Covers(TouchAll(s).value, x) <==> Covers(file, x)
  {
    assert s[..|s|] == s;
    TouchAllExact(s, |s|);
    if Disjoint(s) { MultisetDisjoint(s, file); }
    if Disjoint(file) { MultisetDisjoint(file, s); }
    Range.SameCover(s, file);
  }

  /** A list is disjoint exactly when it has no empty extent and its sequence names no sector twice. */
  lemma {:induction false} DisjointExact(file: seq<Extent>)
    ensures Disjoint(file) <==> AllNonEmpty(file) && NoRepeat(Sectors(file))
  {
    if Disjoint(file) {
      DisjointNoRepeat(file);
    } else if AllNonEmpty(file) {
      var i, j :| 0 <= i < j < |file| && Meet(file[i], file[j]);
      MeetRepeats(file, i, j);
    }
  }

  /** pg_claim_normalise: succeeds exactly when the list fits and names no sector
      twice, and then yields the normal form of its sectors. */
  method Normalise(file: seq<Extent>, out: array<Extent>, cap: nat) returns (err: Option<NormaliseError>, k: nat)
    requires cap <= out.Length <= Range.MAX_OBJECTS
    modifies out
    ensures err == Some(TooManyExtents) <==> |file| > cap
    ensures err == None <==> |file| <= cap && AllNonEmpty(file) && NoRepeat(Sectors(file))
    ensures err == None ==> Disjoint(file)
    ensures err == None ==> k <= |file| && Normalised(out[..k]) && forall x :: Covers(out[..k], x) <==> Covers(file, x)
  {
    k := 0;
    if |file| > cap {
      return Some(TooManyExtents), 0;
    }
    DisjointExact(file);
    CopySorted(file, out);
    ghost var s := out[..|file|];
    SortedTouches(s, file);
    var r := TouchInPlace(out, |file|);
    match r {
      case None => err := Some(SelfOverlap);
      case Some(m) =>
        err := None;
        k := m;
    }
  }

  // ---- pg_claim_intersects -------------------------------------------------

  lemma {:induction false} ShareMeet(a: seq<Extent>, b: seq<Extent>)
    requires AllNonEmpty(a) && AllNonEmpty(b)
    ensures Share(a, b) <==> exists p, q :: 0 <= p < |a| && 0 <= q < |b| && Meet(a[p], b[q])
  {
    if Share(a, b) {
      var x :| Covers(a, x) && Covers(b, x);
      var p :| 0 <= p < |a| && In(a[p], x);
      var q :| 0 <= q < |b| && In(b[q], x);
      assert Meet(a[p], b[q]);
    }
    if p, q :| 0 <= p < |a| && 0 <= q < |b| && Meet(a[p], b[q]) {
      var x := if a[p].start < b[q].start then b[q].start else a[p].start;
      assert In(a[p], x) && In(b[q], x);
      assert Covers(a, x) && Covers(b, x);
    }
  }

  /** pg_claim_intersects: the merge walk finds a common sector exactly when there is one. */
  method Intersects(a: seq<Extent>, b: seq<Extent>) returns (hit: bool)
    requires Normalised(a) && Normalised(b)
    ensures hit <==> Share(a, b)
  {
    ShareMeet(a, b);
    var i, j := 0, 0;
    while i < |a| && j < |b|
      invariant 0 <= i <= |a| && 0 <= j <= |b|
      invariant forall p, q :: 0 <= p < i && 0 <= q < |b| ==> !Meet(a[p], b[q])
      invariant forall p, q :: 0 <= p < |a| && 0 <= q < j ==> !Meet(a[p], b[q])
      decreases |a| - i + |b| - j
    {
      if a[i].start < b[j].end && b[j].start < a[i].end {
        assert Meet(a[i], b[j]);
        return true;
      }
      if a[i].end <= b[j].end {
        i := i + 1;
      } else {
        j := j + 1;
      }
    }
    hit := false;
  }

  // ---- pg_claim_grows ------------------------------------------------------

  /** pg_claim_grows as coded; GrowsExact says what it decides. */
  method CheckGrows(old_: seq<Extent>, new_: seq<Extent>) returns (ok: bool)
    ensures ok <==> Grows(old_, new_)
  {
    if |old_| == 0 || |new_| < |old_| {
      return false;
    }
    var i := 0;
    while i + 1 < |old_|
      invariant 0 <= i < |old_|
      invariant forall k :: 0 <= k < i ==> old_[k] == new_[k]
    {
      if new_[i].start != old_[i].start || new_[i].end != old_[i].end {
        assert old_[..|old_| - 1][i] != new_[..|old_| - 1][i];
        return false;
      }
      i := i + 1;
    }
    ok := new_[i].start == old_[i].start && new_[i].end >= old_[i].end;
  }

  // ---- pg_claim_coalesce ---------------------------------------------------

  function Join(acc: seq<Extent>, x: Extent): seq<Extent> {
    if acc != [] && acc[|acc| - 1].end == x.start then
      acc[|acc| - 1 := Extent(acc[|acc| - 1].start, x.end)]
    else
      acc + [x]
  }

  lemma {:induction false} JoinKeeps(acc: seq<Extent>, x: Extent)
    requires Coalesced(acc) && NonEmpty(x)
    ensures Coalesced(Join(acc, x))
  {
  }

  lemma {:induction false} JoinSectors(acc: seq<Extent>, x: Extent)
    requires AllNonEmpty(acc) && NonEmpty(x)
    ensures Sectors(Join(acc, x)) == Sectors(acc) + Span(x.start, x.end)
  {
    if acc != [] && acc[|acc| - 1].end == x.start {
      var init, e := acc[..|acc| - 1], acc[|acc| - 1];
      assert acc == init + [e] && Join(acc, x) == init + [Extent(e.start, x.end)];
      SectorsAppend(init, e);
      SectorsAppend(init, Extent(e.start, x.end));
      assert Span(e.start, x.end) == Span(e.start, e.end) + Span(x.start, x.end);
    } else {
      SectorsAppend(acc, x);
    }
  }

  /** acc is the coalesced form of the first i extents. */
  ghost predicate Joined(s: seq<Extent>, i: nat, acc: seq<Extent>) {
    && i <= |s| && |acc| <= i && (i > 0 ==> acc != [])
    && Coalesced(acc) && Sectors(acc) == Sectors(s[..i])
  }

  lemma {:induction false} JoinedStep(s: seq<Extent>, i: nat, acc: seq<Extent>)
    requires i < |s| && NonEmpty(s[i]) && Joined(s, i, acc)
    ensures Joined(s, i + 1, Join(acc, s[i]))
  {
    JoinKeeps(acc, s[i]);
    JoinSectors(acc, s[i]);
    SectorsTakeNext(s, i);
  }

  /** pg_claim_coalesce: the maximal runs of the same sector sequence, in place;
      0 when there is none or any extent is empty. */
  method Coalesce(e: array<Extent>, n: nat) returns (k: nat)
    requires n <= e.Length
    modifies e
    ensures k <= n && (k > 0 <==> n > 0 && AllNonEmpty(old(e[..n])))
    ensures k > 0 ==> Coalesced(e[..k]) && Sectors(e[..k]) == Sectors(old(e[..n]))
  {
    ghost var s := e[..n];
    k := 0;
    var i := 0;
    while i < n
      invariant 0 <= k <= i <= n
      invariant Joined(s, i, e[..k])
      invariant forall j :: 0 <= j < i ==> NonEmpty(s[j])
      invariant forall j :: i <= j < n ==> e[j] == s[j]
    {
      if e[i].start >= e[i].end {
        assert !NonEmpty(s[i]);
        return 0;
      }
      ghost var acc := e[..k];
      JoinedStep(s, i, acc);
      if k > 0 && e[k - 1].end == e[i].start {
        e[k - 1] := Extent(e[k - 1].start, e[i].end);
      } else {
        e[k] := e[i];
        k := k + 1;
      }
      assert e[..k] == Join(acc, s[i]);
      i := i + 1;
    }
    assert s[..n] == s;
  }

  // ---- pg_claim_truncate ---------------------------------------------------

  /** A prefix without empty extents holds at least that many sectors. */
  ghost predicate Holds(e: seq<Extent>, sectors: int) {
    exists m :: 0 <= m <= |e| && HoldsIn(e, m, sectors)
  }

  predicate HoldsIn(e: seq<Extent>, m: nat, sectors: int)
    requires m <= |e|
  {
    AllNonEmpty(e[..m]) && sectors <= |Sectors(e[..m])|
  }

  lemma {:induction false} SectorsMonotone(e: seq<Extent>, i: nat, j: nat)
    requires i <= j <= |e|
    ensures |Sectors(e[..i])| <= |Sectors(e[..j])|
    decreases j - i
  {
    if i < j {
      SectorsTakeNext(e, i);
      SectorsMonotone(e, i + 1, j);
    }
  }

  /** t is e cut inside extent i so that `left` of its sectors remain. */
  lemma {:induction false} CutKeeps(e: seq<Extent>, i: nat, left: nat, sectors: nat)
    requires i < |e| && AllNonEmpty(e[..i + 1])
    requires |Sectors(e[..i])| + left == sectors && 0 < left <= e[i].end - e[i].start
    ensures var t := e[..i] + [Extent(e[i].start, e[i].start + left)];
            && sectors <= |Sectors(e)|
            && Sectors(t) == Sectors(e)[..sectors]
            && (Coalesced(e) ==> Coalesced(t))
  {
    var x := Extent(e[i].start, e[i].start + left);
    SectorsAppend(e[..i], x);
    SectorsTakeNext(e, i);
    assert Span(x.start, x.end) == Span(e[i].start, e[i].end)[..left];
    assert NonEmpty(e[..i + 1][i]);
  }

  /** pg_claim_truncate: the first `sectors` logical sectors, in place; 0 when they
      are not there, or `sectors` is 0, or an empty extent comes first. */
  method Truncate(e: array<Extent>, n: nat, sectors: u64) returns (k: nat)
    requires n <= e.Length
    modifies e
    ensures k > 0 <==> sectors > 0 && Holds(old(e[..n]), sectors)
    ensures k <= n
    ensures k > 0 ==> sectors <= |Sectors(old(e[..n]))| && Sectors(e[..k]) == Sectors(old(e[..n]))[..sectors]
    ensures k > 0 && Coalesced(old(e[..n])) ==> Coalesced(e[..k])
  {
    ghost var s := e[..n];
    var left: nat := sectors;
    var i := 0;
    while i < n && left > 0
      invariant 0 <= i <= n && e[..] == old(e[..])
      invariant AllNonEmpty(s[..i])
      invariant left > 0 ==> |Sectors(s[..i])| + left == sectors
      invariant left == 0 ==> sectors == 0
    {
      SectorsTakeNext(s, i);
      if e[i].start >= e[i].end {
        forall m | 0 <= m <= n ensures !HoldsIn(s, m, sectors) {
          if i < m {
            assert s[..m][i] == s[i];
          } else {
            SectorsMonotone(s, m, i);
          }
        }
        return 0;
      }
      assert AllNonEmpty(s[..i + 1]);
      var len := e[i].end - e[i].start;
      if len >= left {
        assert HoldsIn(s, i + 1, sectors);
        CutKeeps(s, i, left, sectors);
        e[i] := Extent(e[i].start, e[i].start + left);
        assert e[..i + 1] == s[..i] + [Extent(s[i].start, s[i].start + left)];
        return i + 1;
      }
      left := left - len;
      i := i + 1;
    }
    if sectors > 0 {
      assert i == n && |Sectors(s[..n])| < sectors;
      forall m | 0 <= m <= n ensures !HoldsIn(s, m, sectors) {
        SectorsMonotone(s, m, n);
      }
    }
    k := 0;
  }

  // ---- pg_claim_gather -----------------------------------------------------

  /** No extent runs backwards. */
  predicate Forward(file: seq<Extent>) {
    forall i :: 0 <= i < |file| ==> file[i].start <= file[i].end
  }

  /** `left` sectors from logical sector lsec are phys, phys + 1, ... in file order. */
  ghost predicate InRun(file: seq<int>, lsec: int, phys: int, left: int) {
    && 0 <= lsec && 0 < left && lsec + left <= |file|
    && (forall j :: lsec <= j < lsec + left ==> file[j] == phys + (j - lsec))
  }

  /** And that run is the longest such. */
  ghost predicate RunAt(file: seq<int>, lsec: int, phys: int, left: int) {
    && InRun(file, lsec, phys, left)
    && (lsec + left < |file| ==> file[lsec + left] != phys + left)
  }

  /** pg_claim_gather: view A's translation of one logical sector. No sum wraps, whatever the list. */
  method Gather(file: seq<Extent>, lsec: u64) returns (left: u64, phys: u64)
    requires Forward(file)
    ensures left > 0 <==> lsec < |Sectors(file)|
    ensures left > 0 ==> InRun(Sectors(file), lsec, phys, left)
    ensures left > 0 && Coalesced(file) ==> RunAt(Sectors(file), lsec, phys, left)
  {
    var base: u64 := 0;
    var i := 0;
    while i < |file|
      invariant 0 <= i <= |file|
      invariant base == |Sectors(file[..i])| <= lsec
    {
      SectorsTakeNext(file, i);
      var len := Sub64(file[i].end, file[i].start);
      if Sub64(lsec, base) < len {
        phys := file[i].start + (lsec - base);
        left := len - (lsec - base);
        GatherRun(file, i, lsec);
        return;
      }
      base := Add64(base, len);
      i := i + 1;
    }
    assert file[..|file|] == file;
    left, phys := 0, 0;
  }

  lemma {:induction false} GatherRun(file: seq<Extent>, i: nat, lsec: nat)
    requires i < |file| && |Sectors(file[..i])| <= lsec < |Sectors(file[..i])| + (file[i].end - file[i].start)
    ensures var b := |Sectors(file[..i])|;
            var phys, left := file[i].start + (lsec - b), file[i].end - file[i].start - (lsec - b);
            InRun(Sectors(file), lsec, phys, left) && (Coalesced(file) ==> RunAt(Sectors(file), lsec, phys, left))
  {
    SectorsTake(file, i);
    var tail := file[i..];
    assert tail[0] == file[i];
    SectorsHead(tail, 0);
    assert Span(tail[0].start, tail[0].end) <= Sectors(tail);
    if Coalesced(file) {
      assert Coalesced(tail);
      FirstBreak(tail);
    }
  }
}
