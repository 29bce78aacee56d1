/** kernel/dm-paguro/pg_range.c: heapsort by start, merging of possibly
    overlapping ranges, and the binary-search range test of the I/O path. */
module Range {
  import opened Words
  import opened Extents

  /** More extents than fit the address space: no index expression below wraps a size_t. */
  const MAX_OBJECTS: int := 0x1000_0000_0000_0000

  // ---- heapsort -----------------------------------------------------------

  predicate Child(p: int, c: int) {
    c == 2 * p + 1 || c == 2 * p + 2
  }

  /** s[0..n) obeys the max-heap order at every parent p >= lo, p != hole. */
  ghost predicate HeapBut(s: seq<Extent>, lo: int, n: int, hole: int)
    requires n <= |s|
  {
    forall p, c :: 0 <= lo <= p < n && 0 <= c < n && Child(p, c) && p != hole ==> s[p].start >= s[c].start
  }

  ghost predicate Heap(s: seq<Extent>, lo: int, n: int)
    requires n <= |s|
  {
    HeapBut(s, lo, n, -1)
  }

  ghost predicate SortedFrom(s: seq<Extent>, lo: int) {
    forall i, j :: 0 <= lo <= i < j < |s| ==> s[i].start <= s[j].start
  }

  ghost predicate Sorted(s: seq<Extent>) {
    SortedFrom(s, 0)
  }

  /** Everything before k starts no later than anything from k on. */
  ghost predicate Split(s: seq<Extent>, k: int) {
    forall i, j :: 0 <= i < k <= j < |s| ==> s[i].start <= s[j].start
  }

  /** t rearranges s[..n] and leaves the rest alone. */
  ghost predicate Rearranged(s: seq<Extent>, t: seq<Extent>, n: int) {
    && |t| == |s| && 0 <= n <= |s|
    && multiset(t[..n]) == multiset(s[..n])
    && t[n..] == s[n..]
  }

  function Exchange(s: seq<Extent>, i: int, j: int): (t: seq<Extent>)
    requires 0 <= i < |s| && 0 <= j < |s|
    ensures |t| == |s| && t[i] == s[j] && t[j] == s[i]
    ensures forall k :: 0 <= k < |s| && k != i && k != j ==> t[k] == s[k]
  {
    s[i := s[j]][j := s[i]]
  }

  lemma {:induction false} ExchangeRearranges(s: seq<Extent>, i: int, j: int, n: int)
    requires 0 <= i < n <= |s| && 0 <= j < n
    ensures Rearranged(s, Exchange(s, i, j), n)
  {
    var t := Exchange(s, i, j);
    assert t[..n] == s[..n][i := s[j]][j := s[i]];
    assert t[n..] == s[n..];
  }

  lemma {:induction false} RearrangedBounds(s: seq<Extent>, t: seq<Extent>, n: int, m: int)
    requires Rearranged(s, t, n) && n <= m <= |s|
    ensures Rearranged(s, t, m)
  {
    assert s[..m] == s[..n] + s[n..][..m - n];
    assert t[..m] == t[..n] + t[n..][..m - n];
    assert s[m..] == s[n..][m - n..];
    assert t[m..] == t[n..][m - n..];
  }

  /** A bound on the elements of a stretch survives rearranging the stretch. */
  lemma {:induction false} RearrangedSplit(s: seq<Extent>, t: seq<Extent>, n: int)
    requires Rearranged(s, t, n) && Split(s, n)
    ensures Split(t, n)
  {
    forall i, j | 0 <= i < n <= j < |t|
      ensures t[i].start <= t[j].start
    {
      assert t[i] in multiset(t[..n]);
      assert t[i] in s[..n];
      var k :| 0 <= k < n && s[k] == t[i];
      assert t[j] == t[n..][j - n] == s[j];
    }
  }

  /** The root of a heap starts no earlier than any other element. */
  lemma {:induction false} HeapMax(s: seq<Extent>, n: int, i: int)
    requires n <= |s| && 0 <= i < n && Heap(s, 0, n)
    ensures s[0].start >= s[i].start
    decreases i
  {
    if i > 0 {
      var p := (i - 1) / 2;
      assert Child(p, i);
      HeapMax(s, n, p);
    }
  }

  /** Heap order everywhere but at r, whose parent already dominates r's children. */
  ghost predicate Sifting(s: seq<Extent>, root: int, n: int, r: int)
    requires n <= |s|
  {
    && 0 <= root <= r <= n
    && HeapBut(s, root, n, r)
    && forall p, c :: root <= p < r && Child(p, r) && Child(r, c) && c < n ==> s[p].start >= s[c].start
  }

  /** r is no smaller than its children: the heap is restored. */
  lemma {:induction false} SiftDone(s: seq<Extent>, root: int, n: int, r: int)
    requires n <= |s| && Sifting(s, root, n, r)
    requires forall c :: 0 <= c < n && Child(r, c) ==> s[r].start >= s[c].start
    ensures Heap(s, root, n)
  {
  }

  /** Exchanging r with its larger child moves the hole down to that child. */
  lemma {:induction false} SiftDown(s: seq<Extent>, root: int, n: int, r: int, child: int)
    requires n <= |s| && Sifting(s, root, n, r)
    requires child < n && Child(r, child) && s[r].start < s[child].start
    requires forall c :: 0 <= c < n && Child(r, c) ==> s[c].start <= s[child].start
    ensures Sifting(Exchange(s, r, child), root, n, child)
  {
    var t := Exchange(s, r, child);
    forall p, c | 0 <= root <= p < n && 0 <= c < n && Child(p, c) && p != child
      ensures t[p].start >= t[c].start
    {
      if p == r {
      } else if c == r {
        assert s[p].start >= s[child].start;
      } else {
        assert c != child;
        assert s[p].start >= s[c].start;
      }
    }
  }

  /** pg_sift: restore the heap below `root` in e[0..n). */
  method Sift(e: array<Extent>, root: nat, n: nat)
    requires root <= n <= e.Length <= MAX_OBJECTS
    requires Heap(e[..], root + 1, n)
    modifies e
    ensures Heap(e[..], root, n)
    ensures Rearranged(old(e[..]), e[..], n)
  {
    ghost var s0 := e[..];
    var r := root;
    while true
      invariant Sifting(e[..], root, n, r)
      invariant Rearranged(s0, e[..], n)
      decreases n - r
    {
      ghost var s := e[..];
      assert 2 * r + 2 < TWO64;
      var child := 2 * r + 1;
      if child >= n {
        SiftDone(s, root, n, r);
        return;
      }
      if child + 1 < n && e[child + 1].start > e[child].start {
        child := child + 1;
      }
      if e[r].start >= e[child].start {
        SiftDone(s, root, n, r);
        return;
      }
      SiftDown(s, root, n, r, child);
      ExchangeRearranges(s, r, child, n);
      e[r], e[child] := e[child], e[r];
      assert e[..] == Exchange(s, r, child);
      r := child;
    }
  }

  /** pg_range_sort: heapsort by start, a sorted rearrangement of its input. */
  method Sort(e: array<Extent>, n: nat)
    requires n <= e.Length <= MAX_OBJECTS
    modifies e
    ensures Sorted(e[..n])
    ensures Rearranged(old(e[..]), e[..], n)
  {
    ghost var s0 := e[..];
    var i := n / 2;
    while i > 0
      invariant 0 <= i <= n / 2
      invariant Heap(e[..], i, n)
      invariant Rearranged(s0, e[..], n)
    {
      i := i - 1;
      Sift(e, i, n);
    }
    i := n;
    while i > 1
      invariant 0 <= i <= n
      invariant Heap(e[..], 0, i)
      invariant Rearranged(s0, e[..], n)
      invariant SortedFrom(e[..n], i)
      invariant Split(e[..n], i)
    {
      i := i - 1;
      SortStep(e, i, n);
    }
  }

  /** The root of the heap and its last element change places. */
  lemma {:induction false} ExchangeMax(s: seq<Extent>, i: int, n: int)
    requires 1 <= i < n <= |s|
    requires Heap(s, 0, i + 1) && SortedFrom(s[..n], i + 1) && Split(s[..n], i + 1)
    ensures var t := Exchange(s, 0, i);
            Heap(t, 1, i) && SortedFrom(t[..n], i) && Split(t[..n], i)
  {
    forall k | 0 <= k <= i ensures s[0].start >= s[k].start {
      HeapMax(s, i + 1, k);
    }
    var t := Exchange(s, 0, i);
    forall j, k | i <= j < k < n ensures t[j].start <= t[k].start {
      assert s[..n][0].start <= s[..n][k].start;
    }
    forall j, k | 0 <= j < i <= k < n ensures t[j].start <= t[k].start {
      if k > i { assert s[..n][if j == 0 then i else j].start <= s[..n][k].start; }
    }
  }

  /** Rearranging the heap part keeps the sorted part sorted and above it. */
  lemma {:induction false} RearrangeBelow(t: seq<Extent>, u: seq<Extent>, i: int, n: int)
    requires 0 <= i <= n <= |t| && Rearranged(t, u, i)
    requires SortedFrom(t[..n], i) && Split(t[..n], i)
    ensures SortedFrom(u[..n], i) && Split(u[..n], i)
  {
    forall k | i <= k < n ensures u[k] == t[k] {
      assert u[k] == u[i..][k - i] == t[i..][k - i];
    }
    forall j, k | i <= j < k < n ensures u[j].start <= u[k].start {
      assert t[..n][j].start <= t[..n][k].start;
    }
    assert Rearranged(t[..n], u[..n], i) by {
      assert t[..n][..i] == t[..i] && u[..n][..i] == u[..i];
      assert t[..n][i..] == u[..n][i..];
    }
    RearrangedSplit(t[..n], u[..n], i);
  }

  /** One round of the second loop: move the maximum behind the heap. */
  method SortStep(e: array<Extent>, i: nat, n: nat)
    requires 1 <= i < n <= e.Length <= MAX_OBJECTS
    requires Heap(e[..], 0, i + 1) && SortedFrom(e[..n], i + 1) && Split(e[..n], i + 1)
    modifies e
    ensures Heap(e[..], 0, i) && SortedFrom(e[..n], i) && Split(e[..n], i)
    ensures Rearranged(old(e[..]), e[..], n)
  {
    ghost var s := e[..];
    assert s[..n] == e[..n];
    ExchangeMax(s, i, n);
    ExchangeRearranges(s, 0, i, n);
    e[0], e[i] := e[i], e[0];
    ghost var t := e[..];
    assert t == Exchange(s, 0, i);
    Sift(e, 0, i);
    RearrangedBounds(t, e[..], i, n);
    RearrangeBelow(t, e[..], i, n);
    assert e[..][..n] == e[..n];
  }

  // ---- merging ------------------------------------------------------------

  lemma {:induction false} CoversTakeNext(s: seq<Extent>, i: nat, x: int)
    requires i < |s|
    ensures Covers(s[..i + 1], x) <==> Covers(s[..i], x) || In(s[i], x)
  {
    if Covers(s[..i + 1], x) {
      var k :| 0 <= k < i + 1 && In(s[..i + 1][k], x);
      if k < i { assert In(s[..i][k], x); }
    }
    if Covers(s[..i], x) {
      var k :| 0 <= k < i && In(s[..i][k], x);
      assert In(s[..i + 1][k], x);
    }
    if In(s[i], x) { assert In(s[..i + 1][i], x); }
  }

  /** acc is the normal form of the first i extents of a sorted list. */
  ghost predicate Merged(s: seq<Extent>, i: nat, acc: seq<Extent>) {
    && i <= |s| && |acc| <= i && (i > 0 ==> acc != [])
    && Normalised(acc)
    && (forall x :: Covers(acc, x) <==> Covers(s[..i], x))
    && (acc != [] && i < |s| ==> acc[|acc| - 1].start <= s[i].start)
  }

  lemma {:induction false} MergedStep(s: seq<Extent>, i: nat, acc: seq<Extent>)
    requires Sorted(s) && AllNonEmpty(s) && Merged(s, i, acc) && i < |s|
    ensures Merged(s, i + 1, Merge(acc, s[i]))
  {
    MergeKeeps(acc, s[i]);
    forall x ensures Covers(Merge(acc, s[i]), x) <==> Covers(s[..i + 1], x) {
      CoversTakeNext(s, i, x);
    }
  }

  /** The extents of s merged one after another. */
  function MergeAll(s: seq<Extent>): (r: seq<Extent>)
    ensures |r| <= |s|
    ensures s != [] ==> r != []
  {
    if s == [] then [] else Merge(MergeAll(s[..|s| - 1]), s[|s| - 1])
  }

  lemma {:induction false} MergeAllMerged(s: seq<Extent>, i: nat)
    requires Sorted(s) && AllNonEmpty(s) && i <= |s|
    ensures Merged(s, i, MergeAll(s[..i]))
  {
    if i > 0 {
      MergeAllMerged(s, i - 1);
      MergedStep(s, i - 1, MergeAll(s[..i - 1]));
      assert s[..i][..i - 1] == s[..i - 1];
    }
  }

  lemma {:induction false} MergeAllNext(s: seq<Extent>, i: nat)
    requires i < |s|
    ensures MergeAll(s[..i + 1]) == Merge(MergeAll(s[..i]), s[i])
  {
    assert s[..i + 1][..i] == s[..i];
  }

  /** One turn of the merging loop: extent i joins e[..out + 1]. */
  method MergeOne(e: array<Extent>, out: nat, i: nat) returns (out': nat)
    requires out < i < e.Length
    modifies e
    ensures out <= out' <= i && e[..out' + 1] == Merge(old(e[..out + 1]), old(e[i]))
    ensures forall j :: i < j < e.Length ==> e[j] == old(e[j])
  {
    ghost var acc := e[..out + 1];
    ghost var x := e[i];
    if e[i].start <= e[out].end {
      if e[i].end > e[out].end {
        e[out] := Extent(e[out].start, e[i].end);
      }
      out' := out;
    } else {
      out' := out + 1;
      e[out'] := e[i];
    }
    assert e[..out' + 1] == Merge(acc, x);
  }

  /** The merging loop of pg_range_normalise. */
  method MergeInPlace(e: array<Extent>, n: nat) returns (k: nat)
    requires 0 < n <= e.Length
    modifies e
    ensures 0 < k <= n && e[..k] == MergeAll(old(e[..n]))
    ensures forall j :: n <= j < e.Length ==> e[j] == old(e[j])
  {
    ghost var s := e[..n];
    var out: nat, i: nat := 0, 1;
    assert s[..1] == [s[0]] && e[..1] == MergeAll(s[..1]);
    while i < n
      invariant 1 <= i <= n && out < i
      invariant e[..out + 1] == MergeAll(s[..i])
      invariant forall j :: i <= j < e.Length ==> e[j] == old(e[j])
    {
      MergeAllNext(s, i);
      out := MergeOne(e, out, i);
      i := i + 1;
    }
    k := out + 1;
    assert s[..n] == s;
  }

  lemma {:induction false} SameCover(s: seq<Extent>, t: seq<Extent>)
    requires multiset(s) == multiset(t)
    ensures forall x :: Covers(s, x) <==> Covers(t, x)
  {
    forall x ensures Covers(s, x) <==> Covers(t, x) {
      if Covers(s, x) { MultisetCovers(s, t, x); }
      if Covers(t, x) { MultisetCovers(t, s, x); }
    }
  }

  method CheckNonEmpty(e: array<Extent>, n: nat) returns (ok: bool)
    requires n <= e.Length
    ensures ok <==> AllNonEmpty(e[..n])
  {
    var i := 0;
    while i < n
      invariant 0 <= i <= n && forall j :: 0 <= j < i ==> NonEmpty(e[j])
    {
      if e[i].end <= e[i].start {
        assert !NonEmpty(e[..n][i]);
        return false;
      }
      i := i + 1;
    }
    ok := true;
  }

  /** Sort, then merge. */
  method SortMerge(e: array<Extent>, n: nat) returns (k: nat, ghost s: seq<Extent>)
    requires 0 < n <= e.Length <= MAX_OBJECTS
    modifies e
    ensures Sorted(s) && multiset(s) == multiset(old(e[..n])) && 0 < k <= n && e[..k] == MergeAll(s)
    ensures e[n..] == old(e[n..])
  {
    Sort(e, n);
    s := e[..n];
    assert old(e[..])[..n] == old(e[..n]) && e[..][..n] == s;
    assert e[n..] == e[..][n..] == old(e[..])[n..] == old(e[n..]);
    k := MergeInPlace(e, n);
  }

  lemma {:induction false} MergedUnion(s: seq<Extent>, s0: seq<Extent>)
    requires Sorted(s) && AllNonEmpty(s0) && multiset(s) == multiset(s0)
    ensures Normalised(MergeAll(s)) && forall x :: Covers(MergeAll(s), x) <==> Covers(s0, x)
  {
    MultisetNonEmpty(s0, s);
    assert s[..|s|] == s;
    MergeAllMerged(s, |s|);
    SameCover(s, s0);
  }

  /** pg_range_normalise: the normal form of the union of the ranges, in place;
      0 when there is none or any is empty. */
  method Normalise(e: array<Extent>, n: nat) returns (k: nat)
    requires n <= e.Length <= MAX_OBJECTS
    modifies e
    ensures k > 0 <==> n > 0 && AllNonEmpty(old(e[..n]))
    ensures k <= n && Normalised(e[..k])
    ensures k > 0 ==> forall x :: Covers(e[..k], x) <==> Covers(old(e[..n]), x)
    ensures e[n..] == old(e[n..])
    ensures k == 0 ==> e[..] == old(e[..])
  {
    ghost var s0 := e[..n];
    var ok := CheckNonEmpty(e, n);
    if !ok || n == 0 {
      return 0;
    }
    ghost var s;
    k, s := SortMerge(e, n);
    MergedUnion(s, s0);
  }

  // ---- the range test -----------------------------------------------------

  /** The request [sector, sector + count) is empty, wraps, or names a covered sector. */
  ghost predicate Refused(es: seq<Extent>, sector: u64, count: u64) {
    || count == 0
    || sector + count >= TWO64
    || exists x :: sector <= x < sector + count && Covers(es, x)
  }

  /** pg_range_blocks: binary search for the first extent ending past the request's start. */
  method Blocks(es: seq<Extent>, sector: u64, count: u64) returns (hit: bool)
    requires Normalised(es) && |es| <= MAX_OBJECTS
    ensures hit <==> Refused(es, sector, count)
  {
    if count == 0 {
      return true;
    }
    var end := Add64(sector, count);
    if end < sector {
      return true;
    }
    var lo, hi := 0, |es|;
    while lo < hi
      invariant 0 <= lo <= hi <= |es|
      invariant forall i :: 0 <= i < lo ==> es[i].end <= sector
      invariant forall i :: hi <= i < |es| ==> es[i].end > sector
    {
      var mid := lo + (hi - lo) / 2;
      if es[mid].end <= sector {
        lo := mid + 1;
      } else {
        hi := mid;
      }
    }
    hit := lo < |es| && es[lo].start < end;
    forall x | sector <= x < sector + count && Covers(es, x) ensures hit {
      var i :| 0 <= i < |es| && In(es[i], x);
      assert lo <= i && es[lo].start <= es[i].start;
    }
    if hit {
      var x := if es[lo].start < sector then sector else es[lo].start;
      assert In(es[lo], x);
      assert sector <= x < sector + count && Covers(es, x);
    }
  }
}
