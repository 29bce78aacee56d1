/** kernel/dm-paguro/pg_ntfs.c: walk() and its callers -- the run list of $MFT and of one file. */
module NtfsFile {
  import opened Words
  import opened Runlist
  import opened Ntfs
  import opened NtfsRecord
  import opened NtfsWalk

  const TWO48: int := 0x1_0000_0000_0000

  /** The $MFT behind a map: record numbers to records. */
  type Mft = nat -> Option<seq<byte>>

  // ---- the attributes of a record ------------------------------------------

  /** An attribute and its position in the record. */
  datatype Place = Place(pos: nat, h: Header)

  const Nowhere := Place(0, Header(0, 0, 0, 0, 0, 0, 0, 0, 0, NoMapping))

  predicate Wanted(h: Header, lists: bool) {
    if lists then h.kind == AT_ATTRIBUTE_LIST else h.kind == AT_DATA && h.nameLength == 0
  }

  /** The attribute lists, or the unnamed $DATA attributes, from pos to the end marker, in order. */
  function Found(r: seq<byte>, used: nat, pos: nat, lists: bool): seq<Place>
    requires used <= |r|
    decreases used + 1 - pos
  {
    match AttrAt(r, used, pos)
    case Broken => []
    case EndMarker => []
    case Attribute(h) => (if Wanted(h, lists) then [Place(pos, h)] else []) + Found(r, used, pos + h.size, lists)
  }

  /** The attributes from pos on reach the end marker. */
  predicate Terminated(r: seq<byte>, used: nat, pos: nat)
    requires used <= |r|
    decreases used + 1 - pos
  {
    match AttrAt(r, used, pos)
    case Broken => false
    case EndMarker => true
    case Attribute(h) => Terminated(r, used, pos + h.size)
  }

  function Datas(r: seq<byte>): seq<Place>
    requires Checked(r)
  {
    Found(r, BytesInUse(r), AttrsOffset(r), false)
  }

  function Lists(r: seq<byte>): seq<Place>
    requires Checked(r)
  {
    Found(r, BytesInUse(r), AttrsOffset(r), true)
  }

  predicate Ends(r: seq<byte>)
    requires Checked(r)
  {
    Terminated(r, BytesInUse(r), AttrsOffset(r))
  }

  /** An attribute that attr_at accepts, inside the used part. */
  ghost predicate Sits(r: seq<byte>, used: nat, x: Place, lists: bool)
    requires used <= |r|
  {
    && AttrAt(r, used, x.pos) == Attribute(x.h) && Wanted(x.h, lists) && Bounded(x.h, used - x.pos)
    && (x.h.nonresident == 1 ==> x.h.mapping.Mapping?)
  }

  lemma {:induction false} FoundSits(r: seq<byte>, used: nat, pos: nat, lists: bool)
    requires used <= |r|
    ensures forall x :: x in Found(r, used, pos, lists) ==> Sits(r, used, x, lists)
    decreases used + 1 - pos
  {
    var a := AttrAt(r, used, pos);
    if a.Attribute? {
      FoundSits(r, used, pos + a.h.size, lists);
    }
  }

  /** The attribute lists and the unnamed $DATA attributes still ahead, and whether the end marker is. */
  datatype Scan = Scan(lists: seq<Place>, datas: seq<Place>, ends: bool)
  {
    function Of(kind: bool): seq<Place> {
      if kind then lists else datas
    }

    function After(pos: nat, h: Header): Scan {
      Scan(if Wanted(h, true) then lists + [Place(pos, h)] else lists,
           if Wanted(h, false) then datas + [Place(pos, h)] else datas, ends)
    }

    function Then(rest: Scan): Scan {
      Scan(lists + rest.lists, datas + rest.datas, rest.ends)
    }
  }

  ghost predicate Ahead(r: seq<byte>, used: nat, pos: nat, rest: Scan)
    requires used <= |r|
  {
    forall kind :: Found(r, used, pos, kind) == rest.Of(kind) && (kind ==> Terminated(r, used, pos) == rest.ends)
  }

  ghost function Whole(r: seq<byte>): Scan
    requires Checked(r)
  {
    Scan(Lists(r), Datas(r), Ends(r))
  }

  /** attr_at, and what it leaves ahead. */
  method NextAttr(r: seq<byte>, used: nat, pos: nat, ghost done: Scan, ghost rest: Scan)
    returns (a: Attribute, next: nat, ghost rest': Scan)
    requires used <= |r| && Ahead(r, used, pos, rest)
    ensures a.Broken? ==> rest == Scan([], [], false)
    ensures a.EndMarker? ==> rest == Scan([], [], true)
    ensures a.Attribute? ==> pos < next == pos + a.h.size <= used && Ahead(r, used, next, rest')
    ensures a.Attribute? ==> done.Then(rest) == done.After(pos, a.h).Then(rest')
  {
    a := ReadAttr(r, used, pos);
    next, rest' := pos, rest;
    assert rest.Of(true) == Found(r, used, pos, true) && rest.Of(false) == Found(r, used, pos, false);
    if a.Attribute? {
      next := pos + a.h.size;
      rest' := Scan(Found(r, used, next, true), Found(r, used, next, false), Terminated(r, used, next));
      ThenAfter(done, rest, pos, a.h, rest');
    }
  }

  lemma {:induction false} ThenAfter(done: Scan, rest: Scan, pos: nat, h: Header, rest': Scan)
    requires rest.lists == (if Wanted(h, true) then [Place(pos, h)] else []) + rest'.lists
    requires rest.datas == (if Wanted(h, false) then [Place(pos, h)] else []) + rest'.datas && rest.ends == rest'.ends
    ensures done.Then(rest) == done.After(pos, h).Then(rest')
  {
  }

  /** The base record of a walk, and where its attribute list and $DATA are. */
  ghost predicate Scanned(r: seq<byte>, list: Option<Place>, ndata: nat, data: Option<Place>)
    requires Checked(r)
  {
    && Ends(r) && Lists(r) == (if list.Some? then [list.value] else [])
    && |Datas(r)| == ndata && (ndata > 0 ==> data == Some(Datas(r)[0]))
  }

  /** One pass over the attributes: the attribute list, and the first unnamed $DATA and their count. It
      fails exactly when the attributes do not reach the end marker or there are two lists. */
  method ScanBase(r: seq<byte>) returns (e: int, list: Option<Place>, ndata: nat, data: Option<Place>)
    requires Checked(r)
    ensures e == 0 ==> Scanned(r, list, ndata, data)
    ensures e == 0 <==> Ends(r) && |Lists(r)| <= 1
  {
    var used, pos: nat := BytesInUse(r), AttrsOffset(r);
    list, data, ndata := None, None, 0;
    ghost var all, done := Whole(r), Scan([], [], false);
    ghost var rest := all;
    while true
      invariant pos <= used <= |r| && Ahead(r, used, pos, rest) && all == done.Then(rest)
      invariant |done.datas| == ndata && (ndata > 0 ==> data == Some(done.datas[0]))
      invariant done.lists == if list.Some? then [list.value] else []
      decreases used + 1 - pos
    {
      var a, next;
      a, next, rest := NextAttr(r, used, pos, done, rest);
      match a {
        case Broken => return E_ATTR_BOUNDS, list, ndata, data;
        case EndMarker => return 0, list, ndata, data;
        case Attribute(h) =>
          done := done.After(pos, h);
          if h.kind == AT_ATTRIBUTE_LIST {
            if list.Some? {
              return E_ATTR_LIST, list, ndata, data;
            }
            list := Some(Place(pos, h));
          }
          if h.kind == AT_DATA && h.nameLength == 0 {
            if ndata == 0 {
              data := Some(Place(pos, h));
            }
            ndata := ndata + 1;
          }
          pos := next;
      }
    }
  }

  /** The first with this instance number. */
  function FirstWith(xs: seq<Place>, instance: nat): Option<Place> {
    if xs == [] then None else if xs[0].h.instance == instance then Some(xs[0]) else FirstWith(xs[1..], instance)
  }

  lemma {:induction false} FirstAfter(done: seq<Place>, rest: seq<Place>, instance: nat)
    requires forall i :: 0 <= i < |done| ==> done[i].h.instance != instance
    ensures FirstWith(done + rest, instance) == FirstWith(rest, instance)
    ensures FirstWith(done, instance) == None
  {
    if done == [] {
      assert done + rest == rest;
    } else {
      assert (done + rest)[1..] == done[1..] + rest;
      FirstAfter(done[1..], rest, instance);
    }
  }

  lemma {:induction false} FirstHere(done: seq<Place>, x: Place, rest: seq<Place>, all: seq<Place>, instance: nat)
    requires (forall i :: 0 <= i < |done| ==> done[i].h.instance != instance) && x.h.instance == instance
    requires all == done + [x] + rest
    ensures FirstWith(all, instance) == Some(x) && x in all
  {
    assert all == done + ([x] + rest);
    FirstAfter(done, [x] + rest, instance);
    assert all[|done|] == x;
  }

  /** find_segment: the first unnamed $DATA with this instance number, or none. */
  method FindSegment(r: seq<byte>, instance: nat) returns (e: int, at: Option<Place>)
    requires Checked(r)
    ensures e == 0 ==> at == FirstWith(Datas(r), instance)
    ensures e != 0 ==> FirstWith(Datas(r), instance) == None
    ensures e == 0 && at.Some? ==> Sits(r, BytesInUse(r), at.value, false) && at.value.h.instance == instance
  {
    var used, pos: nat := BytesInUse(r), AttrsOffset(r);
    at := None;
    ghost var all, done := Whole(r), Scan([], [], false);
    ghost var rest := all;
    while true
      invariant pos <= used <= |r| && Ahead(r, used, pos, rest) && all == done.Then(rest)
      invariant forall i :: 0 <= i < |done.datas| ==> done.datas[i].h.instance != instance
      decreases used + 1 - pos
    {
      var a, next;
      a, next, rest := NextAttr(r, used, pos, done, rest);
      match a {
        case Broken =>
          FirstAfter(done.datas, [], instance);
          return E_ATTR_BOUNDS, None;
        case EndMarker =>
          FirstAfter(done.datas, [], instance);
          return 0, None;
        case Attribute(h) =>
          if h.kind == AT_DATA && h.nameLength == 0 && h.instance == instance {
            FirstHere(done.datas, Place(pos, h), rest.datas, all.datas, instance);
            FoundSits(r, used, AttrsOffset(r), false);
            return 0, Some(Place(pos, h));
          }
          done := done.After(pos, h);
          pos := next;
      }
    }
  }

  // ---- the attribute list --------------------------------------------------

  /** struct ntfs_attr_list_entry. */
  datatype Entry = Entry(kind: nat, size: nat, nameLength: nat, lowest: u64, reference: u64, instance: nat)

  function EntryAt(al: seq<byte>, p: nat): Entry
    requires p + LIST_ENTRY <= |al|
  {
    Entry(LE(al, p, 4), LE(al, p + 4, 2), al[p + 6], U64(al, p + 8), U64(al, p + 0x10), LE(al, p + 0x18, 2))
  }

  predicate IsData(x: Entry) {
    x.kind == AT_DATA && x.nameLength == 0
  }

  /** There is a whole entry at p. */
  predicate EntryFits(al: seq<byte>, p: nat) {
    p + LIST_ENTRY <= |al| && LIST_ENTRY <= EntryAt(al, p).size <= |al| - p
  }

  /** The unnamed $DATA entries of a list, from p on, or the others. */
  function Entries(al: seq<byte>, p: nat, others: bool): seq<Entry>
    decreases |al| - p
  {
    if !EntryFits(al, p) then []
    else
      var x := EntryAt(al, p);
      (if IsData(x) != others then [x] else []) + Entries(al, p + x.size, others)
  }

  /** The entries from p on fill the list exactly. */
  predicate Tiled(al: seq<byte>, p: nat)
    decreases |al| - p
  {
    p == |al| || (EntryFits(al, p) && Tiled(al, p + EntryAt(al, p).size))
  }

  /** The unnamed $DATA entries and the others still ahead, and whether they fill the list. */
  datatype Tail = Tail(datas: seq<Entry>, others: seq<Entry>, tiled: bool)
  {
    function Of(kind: bool): seq<Entry> {
      if kind then others else datas
    }
  }

  ghost predicate ListAhead(al: seq<byte>, p: nat, rest: Tail) {
    forall kind :: Entries(al, p, kind) == rest.Of(kind) && (kind ==> Tiled(al, p) == rest.tiled)
  }

  /** The entry at p, if it lies inside the list. */
  method NextEntry(al: seq<byte>, p: nat, ghost done: seq<Entry>, ghost rest: Tail)
    returns (x: Option<Entry>, next: nat, ghost rest': Tail)
    requires p < |al| && ListAhead(al, p, rest)
    ensures x.None? ==> !rest.tiled
    ensures x.Some? ==> p < next == p + x.value.size <= |al| && ListAhead(al, next, rest') && rest.tiled == rest'.tiled
    ensures x.Some? ==> done + rest.datas == (if IsData(x.value) then done + [x.value] else done) + rest'.datas
  {
    assert rest.Of(false) == Entries(al, p, false) && rest.Of(true) == Entries(al, p, true);
    if p + LIST_ENTRY > |al| {
      return None, p, rest;
    }
    var y := EntryAt(al, p);
    if y.size < LIST_ENTRY || y.size > |al| - p {
      return None, p, rest;
    }
    x, next := Some(y), p + y.size;
    rest' := Tail(Entries(al, next, false), Entries(al, next, true), Tiled(al, next));
  }

  lemma {:induction false} NoneAhead(al: seq<byte>, p: nat, rest: Tail)
    requires p == |al| && ListAhead(al, p, rest)
    ensures rest.datas == [] && rest.tiled
  {
    assert rest.Of(false) == Entries(al, p, false) && rest.Of(true) == Entries(al, p, true);
  }

  /** The refusals of load_list before it decodes a non-resident list. */
  function ListFault(h: Header): int
    requires h.mapping.Mapping?
  {
    if h.flags != 0 || h.mapping.lowest != 0 then E_ATTR_LIST
    else if h.mapping.data > MAX_ALIST then E_ATTR_LIST_SIZE
    else if h.mapping.init != h.mapping.data then E_ATTR_LIST
    else 0
  }

  /** The attribute list's bytes: the resident value, or the sectors its own runs map, of which there are
      at most cap. */
  ghost predicate ListBytes(disk: Disk, g: Geometry, r: seq<byte>, x: Place, cap: nat, al: seq<byte>) {
    var pos, h := x.pos, x.h;
    && pos + h.size <= |r| && g.clusterBytes > 0
    && if h.nonresident == 0 then
         pos + h.valueOffset + h.valueLength <= |r| && al == r[pos + h.valueOffset..pos + h.valueOffset + h.valueLength]
       else
         h.mapping.Mapping? && ListFault(h) == 0 && exists runs :: ListFrom(disk, g, r, x, cap, runs, al)
  }

  /** The sectors named by the runs of the attribute's mapping pairs hold the list. */
  ghost predicate ListFrom(disk: Disk, g: Geometry, r: seq<byte>, x: Place, cap: nat, runs: seq<Run>, al: seq<byte>)
    requires g.clusterBytes > 0 && x.pos + x.h.size <= |r| && x.h.mapping.Mapping?
  {
    && HasRuns(g, x.h, r[x.pos..x.pos + x.h.size], runs) && |runs| <= cap
    && BytesAt(disk, g, runs, x.h.mapping.data) == Some(al)
  }

  // ---- what a walk establishes ---------------------------------------------

  /** r is record recno, and in use. */
  ghost predicate LiveRecord(recs: Mft, recno: nat, r: seq<byte>) {
    recs(recno) == Some(r) && Checked(r) && InUse(r)
  }

  /** The base record of the walk: a file, not a directory, itself not an extension, with the
      sequence number asked for (0: any). */
  ghost predicate BaseRecord(recs: Mft, recno: nat, seqNo: nat, r: seq<byte>) {
    && LiveRecord(recs, recno, r)
    && !IsDirectory(r) && BaseReference(r) == 0 && (seqNo != 0 ==> Sequence(r) == seqNo)
  }

  /** A live record that is the base or names it, with its age, as its base. */
  ghost predicate Belongs(recs: Mft, recno: nat, ownSeq: nat, at: nat, r: seq<byte>) {
    && LiveRecord(recs, at, r)
    && BaseReference(r) == (if at == recno then 0 else recno + ownSeq * TWO48)
  }

  /** The segment an unnamed $DATA attribute of a record is. */
  function PieceOf(recno: nat, r: seq<byte>, x: Place): Piece
    requires x.pos + x.h.size <= |r|
  {
    Piece(recno, r, x.pos, x.h, r[x.pos..x.pos + x.h.size])
  }

  /** The piece is an unnamed $DATA attribute of such a record. */
  ghost predicate Drawn(recs: Mft, recno: nat, ownSeq: nat, p: Piece) {
    && Belongs(recs, recno, ownSeq, p.recno, p.rec)
    && Sits(p.rec, BytesInUse(p.rec), Place(p.pos, p.h), false)
    && p == PieceOf(p.recno, p.rec, Place(p.pos, p.h))
  }

  ghost predicate AllDrawn(recs: Mft, recno: nat, ownSeq: nat, ps: seq<Part>) {
    forall i :: 0 <= i < |ps| ==> Drawn(recs, recno, ownSeq, ps[i].piece)
  }

  /** The segment is the one the entry names: record, sequence number, first of its instance, first VCN. */
  ghost predicate Named(x: Entry, q: Piece) {
    && Checked(q.rec)
    && q.recno == x.reference % TWO48 && Sequence(q.rec) == x.reference / TWO48
    && FirstWith(Datas(q.rec), x.instance) == Some(Place(q.pos, q.h))
    && q.h.mapping.Mapping? && q.h.mapping.lowest == x.lowest
  }

  ghost predicate AllNamed(xs: seq<Entry>, ps: seq<Part>) {
    |xs| == |ps| && forall i :: 0 <= i < |ps| ==> Named(xs[i], ps[i].piece)
  }

  /** Entries that lead to another record. */
  function Extensions(xs: seq<Entry>, recno: nat): nat {
    if xs == [] then 0
    else Extensions(xs[..|xs| - 1], recno) + if xs[|xs| - 1].reference % TWO48 != recno then 1 else 0
  }

  /** The segments are those of the list's unnamed $DATA entries, one for one, in order. */
  ghost predicate Listed(al: seq<byte>, recno: nat, ps: seq<Part>) {
    Tiled(al, 0) && Enumerates(Entries(al, 0, false), recno, ps)
  }

  ghost predicate Enumerates(xs: seq<Entry>, recno: nat, ps: seq<Part>) {
    AllNamed(xs, ps) && Extensions(xs, recno) <= MAX_EXTENSIONS
  }

  /** Without an attribute list the file has exactly one unnamed $DATA, in the base record; with one,
      where one is allowed, its segments are exactly those the list names. */
  ghost predicate Complete(disk: Disk, g: Geometry, recno: nat, base: seq<byte>, allowList: bool, cap: nat, ps: seq<Part>)
    requires Checked(base)
  {
    var lists := Lists(base);
    && Ends(base)
    && if lists == [] then
         |Datas(base)| == 1 && |ps| == 1 && ps[0].piece.recno == recno && ps[0].piece.rec == base
         && Place(ps[0].piece.pos, ps[0].piece.h) == Datas(base)[0]
       else
         allowList && |lists| == 1 && exists al :: ListBytes(disk, g, base, lists[0], cap, al) && Listed(al, recno, ps)
  }

  /** The runs hold the allocated size of the first segment, which bounds its initialised,
      sector-aligned data size. */
  ghost predicate Sized(g: Geometry, ps: seq<Part>, runs: seq<Run>, size: nat) {
    && ps != [] && ps[0].piece.h.mapping.Mapping?
    && var m := ps[0].piece.h.mapping;
       Total(runs) * g.clusterBytes == m.alloc && size == m.data == m.init <= m.alloc && size % 512 == 0
  }

  /** The runs are the file's segments end to end, gapless from VCN 0, inside the volume, at most cap of
      them; all its segments, with the sizes they say. */
  ghost predicate FileMap(disk: Disk, g: Geometry, recs: Mft, recno: nat, seqNo: nat, allowList: bool, cap: nat,
                          base: seq<byte>, ps: seq<Part>, runs: seq<Run>, size: nat) {
    && BaseRecord(recs, recno, seqNo, base)
    && AllDrawn(recs, recno, Sequence(base), ps) && Complete(disk, g, recno, base, allowList, cap, ps)
    && ps != [] && AllPlain(ps) && Gapless(ps)
    && runs == Concat(ps) && 0 < |runs| <= cap && InVolume(runs, g.clusters)
    && Sized(g, ps, runs, size)
  }

  // ---- load_list -----------------------------------------------------------

  method CopyValue(r: seq<byte>, from: nat, size: nat, alist: array<byte>)
    requires from + size <= |r| && size <= alist.Length
    modifies alist
    ensures alist[..size] == r[from..from + size]
  {
    for i := 0 to size
      invariant forall j :: 0 <= j < i ==> alist[j] == r[from + j]
    {
      alist[i] := r[from + i];
    }
  }

  /** The first n bytes the runs map, if their sectors can be read. */
  ghost function BytesAt(disk: Disk, g: Geometry, runs: seq<Run>, n: nat): Option<seq<byte>>
    requires g.clusterBytes > 0
  {
    RoundUp(n);
    var raw := RawAt(disk, g, runs, 0, (n + 511) / 512);
    if raw.None? then None else Some(raw.value[..n])
  }

  lemma {:induction false} RoundUp(n: nat)
    ensures n <= (n + 511) / 512 * 512
  {
  }

  /** Sector after sector of a non-resident list: whole sectors, as MAX_ALIST is a multiple of 512. */
  method ReadBytes(disk: Disk, g: Geometry, runs: seq<Run>, n: nat, alist: array<byte>) returns (e: int, al: seq<byte>)
    requires Sane(g) && InVolume(runs, g.clusters) && n <= MAX_ALIST == alist.Length
    modifies alist
    ensures BytesAt(disk, g, runs, n) == if e == 0 then Some(al) else None
  {
    RoundUp(n);
    e := ReadRaw(disk, g, runs, 0, (n + 511) / 512, alist);
    al := alist[..n];
    assert alist[..(n + 511) / 512 * 512][..n] == al;
    e := if e == E_NOT_MAPPED then E_ATTR_LIST else e;
  }

  /** load_list: the $ATTRIBUTE_LIST into alist; its runs borrow scratch. It succeeds whenever the list
      can be read to be `want`. */
  method LoadList(disk: Disk, g: Geometry, r: seq<byte>, x: Place, alist: array<byte>, scratch: array<Run>, cap: nat, ghost want: seq<byte>)
    returns (e: int, al: seq<byte>)
    requires Sane(g) && |r| <= MAX_RECORD && Bounded(x.h, |r| - x.pos)
    requires x.h.nonresident == 1 ==> x.h.mapping.Mapping?
    requires alist.Length == MAX_ALIST && cap <= scratch.Length
    modifies alist, scratch
    ensures e == 0 ==> ListBytes(disk, g, r, x, cap, al)
    ensures ListBytes(disk, g, r, x, cap, want) ==> e == 0 && al == want
  {
    var pos, h := x.pos, x.h;
    al := [];
    if h.nonresident == 0 {
      CopyValue(r, pos + h.valueOffset, h.valueLength, alist);
      return 0, alist[..h.valueLength];
    }
    e := ListFault(h);
    if e != 0 {
      return;
    }
    var body := r[pos..pos + h.size];
    ghost var hoped: seq<Run> := [];
    if ListBytes(disk, g, r, x, cap, want) {
      hoped :| ListFrom(disk, g, r, x, cap, hoped, want);
    }
    e, al := LoadRuns(disk, g, r, x, body, alist, scratch, cap, hoped, want);
  }

  /** The runs of a list are known. */
  lemma {:induction false} ListRunsUnique(disk: Disk, g: Geometry, r: seq<byte>, x: Place, cap: nat, runs: seq<Run>, al: seq<byte>, other: seq<Run>)
    requires g.clusterBytes > 0 && x.pos + x.h.size <= |r| && x.h.mapping.Mapping?
    requires ListFrom(disk, g, r, x, cap, runs, al) && MapsTo(Pairs(x.h, r[x.pos..x.pos + x.h.size]), other)
    ensures runs == other
  {
    MapsToUnique(Pairs(x.h, r[x.pos..x.pos + x.h.size]), runs, other);
  }

  method LoadRuns(disk: Disk, g: Geometry, r: seq<byte>, x: Place, body: seq<byte>, alist: array<byte>, scratch: array<Run>, cap: nat,
                  ghost hoped: seq<Run>, ghost want: seq<byte>)
    returns (e: int, al: seq<byte>)
    requires Sane(g) && Bounded(x.h, |r| - x.pos) && body == r[x.pos..x.pos + x.h.size]
    requires x.h.nonresident == 1 && x.h.mapping.Mapping? && ListFault(x.h) == 0
    requires alist.Length == MAX_ALIST && cap <= scratch.Length
    modifies alist, scratch
    ensures e == 0 ==> exists runs :: ListFrom(disk, g, r, x, cap, runs, al)
    ensures ListFrom(disk, g, r, x, cap, hoped, want) ==> e == 0 && al == want
  {
    var n := x.h.mapping.data;
    var k;
    al := [];
    e, k := DecodeRuns(g, x.h, body, scratch, 0, cap, hoped);
    if e != 0 {
      return;
    }
    var runs := scratch[0..k];
    if ListFrom(disk, g, r, x, cap, hoped, want) {
      ListRunsUnique(disk, g, r, x, cap, hoped, want, runs);
    }
    e, al := ReadBytes(disk, g, runs, n, alist);
    if e == 0 {
      assert ListFrom(disk, g, r, x, cap, runs, al);
    }
  }

  // ---- walk ----------------------------------------------------------------

  /** The record an entry names, if it is in use, of the right age and an extension of the base. */
  method ReadMember(disk: Disk, g: Geometry, map_: seq<Run>, limit: u64, recno: u64, ownSeq: nat, x: Entry, rec: array<byte>, ghost recs: Mft)
    returns (e: int, r: seq<byte>)
    requires Sane(g) && InVolume(map_, g.clusters) && rec.Length == MAX_RECORD && Serves(disk, g, map_, limit, recs)
    modifies rec
    ensures e == 0 ==> Belongs(recs, recno, ownSeq, x.reference % TWO48, r) && Sequence(r) == x.reference / TWO48
    ensures forall q :: Belongs(recs, recno, ownSeq, x.reference % TWO48, q) && Sequence(q) == x.reference / TWO48 ==> e == 0 && r == q
  {
    var ref := x.reference % TWO48;
    e, r := FetchRecord(disk, g, map_, limit, ref, rec, recs);
    if e != 0 {
      return;
    }
    if !InUse(r) {
      return E_NOT_IN_USE, r;
    }
    if Sequence(r) != x.reference / TWO48 {
      return E_SEQUENCE, r;
    }
    e := if BaseReference(r) != (if ref == recno then 0 else recno + ownSeq * TWO48) then E_EXTENSION_BASE else 0;
  }

  lemma {:induction false} PieceDrawn(recs: Mft, recno: nat, ownSeq: nat, at: nat, r: seq<byte>, x: Place)
    requires Belongs(recs, recno, ownSeq, at, r) && Sits(r, BytesInUse(r), x, false)
    ensures x.pos + x.h.size <= |r| && Drawn(recs, recno, ownSeq, PieceOf(at, r, x)) && Fresh(PieceOf(at, r, x))
  {
  }

  /** One $DATA entry of the list: read its record, check it belongs, find the segment; whenever the entry
      names `want`. */
  method ReadEntry(disk: Disk, g: Geometry, map_: seq<Run>, limit: u64, recno: u64, ownSeq: nat, x: Entry, rec: array<byte>,
                   ghost recs: Mft, ghost want: Piece)
    returns (e: int, p: Piece)
    requires Sane(g) && InVolume(map_, g.clusters) && rec.Length == MAX_RECORD && Serves(disk, g, map_, limit, recs)
    modifies rec
    ensures e == 0 ==> Drawn(recs, recno, ownSeq, p) && Fresh(p) && (p.h.mapping.Mapping? && p.h.mapping.lowest == x.lowest ==> Named(x, p))
    ensures Drawn(recs, recno, ownSeq, want) && Named(x, want) ==> e == 0 && p == want
  {
    p := Piece(0, [], 0, Nowhere.h, []);
    var r, at;
    e, r := ReadMember(disk, g, map_, limit, recno, ownSeq, x, rec, recs);
    if e != 0 {
      return;
    }
    e, at := FindSegment(r, x.instance);
    if e != 0 {
      return;
    }
    if at.None? {
      return E_MISSING_SEGMENT, p;
    }
    PieceDrawn(recs, recno, ownSeq, x.reference % TWO48, r, at.value);
    p := PieceOf(x.reference % TWO48, r, at.value);
  }

  lemma {:induction false} DrawnNext(recs: Mft, recno: nat, ownSeq: nat, ps: seq<Part>, p: Part)
    requires AllDrawn(recs, recno, ownSeq, ps) && Drawn(recs, recno, ownSeq, p.piece)
    ensures AllDrawn(recs, recno, ownSeq, ps + [p])
  {
    forall i | 0 <= i < |ps + [p]| ensures Drawn(recs, recno, ownSeq, (ps + [p])[i].piece) {
      assert (ps + [p])[i] == if i < |ps| then ps[i] else p;
    }
  }

  lemma {:induction false} NamedNext(xs: seq<Entry>, ps: seq<Part>, x: Entry, q: Part)
    requires AllNamed(xs, ps) && Named(x, q.piece)
    ensures AllNamed(xs + [x], ps + [q])
  {
    forall i | 0 <= i < |ps + [q]| ensures Named((xs + [x])[i], (ps + [q])[i].piece) {
      if i < |ps| { assert (xs + [x])[i] == xs[i] && (ps + [q])[i] == ps[i]; }
    }
  }

  /** One unnamed $DATA entry: its record, its segment, its runs appended; whenever it names `want`, which
      fits and has room. */
  method ListStep(disk: Disk, g: Geometry, map_: seq<Run>, limit: u64, recno: u64, ownSeq: nat, x: Entry, st: Seg,
                  rec: array<byte>, out: array<Run>, cap: nat, ghost recs: Mft, ghost ps: seq<Part>, ghost want: Part)
    returns (e: int, st': Seg, ghost q: Part)
    requires Sane(g) && InVolume(map_, g.clusters) && rec.Length == MAX_RECORD && cap <= out.Length && Serves(disk, g, map_, limit, recs)
    requires st.n <= cap && InVolume(out[..st.n], g.clusters) && Accounts(st, out[..st.n], ps)
    requires x.lowest == st.vcn
    modifies rec, out
    ensures e == 0 ==> st'.n <= cap && InVolume(out[..st'.n], g.clusters) && Accounts(st', out[..st'.n], ps + [q])
    ensures e == 0 ==> Drawn(recs, recno, ownSeq, q.piece) && Named(x, q.piece)
    ensures Drawn(recs, recno, ownSeq, want.piece) && Named(x, want.piece) && Follows(g, want, st.vcn) && st.n + |want.runs| <= cap ==> e == 0 && q == want
  {
    st', q := st, Part(Piece(0, [], 0, Nowhere.h, []), []);
    var p;
    e, p := ReadEntry(disk, g, map_, limit, recno, ownSeq, x, rec, recs, want.piece);
    if e != 0 {
      return;
    }
    e, st', q := Segment(g, p, st, out, cap, ps, want);
  }

  /** Entries whose segments walk() can take one after another. */
  ghost predicate Walkable(g: Geometry, recs: Mft, recno: nat, ownSeq: nat, xs: seq<Entry>, cap: nat, ps: seq<Part>) {
    && Enumerates(xs, recno, ps) && AllDrawn(recs, recno, ownSeq, ps) && |Concat(ps)| <= cap
    && forall i :: 0 <= i < |ps| ==> FollowsAt(g, ps, i)
  }

  ghost predicate FollowsAt(g: Geometry, ps: seq<Part>, i: nat)
    requires i < |ps|
  {
    Follows(g, ps[i], Total(Concat(ps[..i])))
  }

  lemma {:induction false} ExtensionsTake(xs: seq<Entry>, i: nat, recno: nat)
    requires i <= |xs|
    ensures Extensions(xs[..i], recno) <= Extensions(xs, recno)
  {
    if i == |xs| {
      assert xs[..i] == xs;
    } else {
      ExtensionsTake(xs[..|xs| - 1], i, recno);
      assert xs[..|xs| - 1][..i] == xs[..i];
    }
  }

  /** What is next, once the first segments are taken. */
  lemma {:induction false} WalkableNext(g: Geometry, recs: Mft, recno: nat, ownSeq: nat, xs: seq<Entry>, cap: nat, want: seq<Part>, done: seq<Entry>,
                     x: Entry, rest: seq<Entry>)
    requires Walkable(g, recs, recno, ownSeq, xs, cap, want) && xs == done + [x] + rest
    ensures var i := |done|;
            && i < |want| && Drawn(recs, recno, ownSeq, want[i].piece) && Named(x, want[i].piece) && Follows(g, want[i], Total(Concat(want[..i])))
            && |Concat(want[..i])| + |want[i].runs| <= cap
    ensures Extensions(done + [x], recno) <= MAX_EXTENSIONS
  {
    var i := |done|;
    assert xs[i] == x && xs[..i + 1] == done + [x];
    ExtensionsTake(xs, i + 1, recno);
    assert FollowsAt(g, want, i);
    ConcatNext(want, i);
  }

  lemma {:induction false} ConcatNext(ps: seq<Part>, i: nat)
    requires i < |ps|
    ensures |Concat(ps[..i])| + |ps[i].runs| <= |Concat(ps)|
  {
    ConcatTake(ps, i + 1);
    assert ps[..i + 1][..i] == ps[..i];
  }

  /** The walk so far: the entries behind, their segments, and the first segments of `want` if the whole is
      walkable as that. */
  ghost predicate SoFar(recs: Mft, recno: nat, ownSeq: nat, done: seq<Entry>, ps: seq<Part>, ext: nat, hope: bool, want: seq<Part>) {
    && AllNamed(done, ps) && AllDrawn(recs, recno, ownSeq, ps) && ext == Extensions(done, recno) <= MAX_EXTENSIONS
    && (hope ==> |ps| <= |want| && ps == want[..|ps|])
  }

  lemma {:induction false} PartNext(recs: Mft, recno: nat, ownSeq: nat, done: seq<Entry>, ps: seq<Part>, x: Entry, q: Part)
    requires AllNamed(done, ps) && AllDrawn(recs, recno, ownSeq, ps) && Named(x, q.piece) && Drawn(recs, recno, ownSeq, q.piece)
    ensures AllNamed(done + [x], ps + [q]) && AllDrawn(recs, recno, ownSeq, ps + [q])
  {
    DrawnNext(recs, recno, ownSeq, ps, q);
    NamedNext(done, ps, x, q);
  }

  lemma {:induction false} SoFarNext(recs: Mft, recno: nat, ownSeq: nat, done: seq<Entry>, ps: seq<Part>, ext: nat, hope: bool, want: seq<Part>,
                  x: Entry, q: Part, ext': nat)
    requires SoFar(recs, recno, ownSeq, done, ps, ext, hope, want) && (hope ==> |ps| < |want| && q == want[|ps|])
    requires AllNamed(done + [x], ps + [q]) && AllDrawn(recs, recno, ownSeq, ps + [q])
    requires ext' == ext + (if x.reference % TWO48 != recno then 1 else 0) <= MAX_EXTENSIONS
    ensures SoFar(recs, recno, ownSeq, done + [x], ps + [q], ext', hope, want)
  {
    ExtensionsNext(done, x, recno);
    if hope {
      TakeNext(ps, want, q);
    }
  }

  lemma {:induction false} TakeNext(ps: seq<Part>, want: seq<Part>, q: Part)
    requires |ps| < |want| && ps == want[..|ps|] && q == want[|ps|]
    ensures ps + [q] == want[..|ps + [q]|]
  {
  }

  /** One unnamed $DATA entry of the list loop. */
  method TakeEntry(disk: Disk, g: Geometry, map_: seq<Run>, limit: u64, recno: u64, ownSeq: nat, x: Entry, st: Seg, ext: nat,
                   rec: array<byte>, out: array<Run>, cap: nat, ghost recs: Mft, ghost xs: seq<Entry>, ghost done: seq<Entry>,
                   ghost rest: seq<Entry>, ghost ps: seq<Part>, ghost hope: bool, ghost want: seq<Part>)
    returns (e: int, st': Seg, ext': nat, ghost q: Part)
    requires Sane(g) && InVolume(map_, g.clusters) && rec.Length == MAX_RECORD && cap <= out.Length && Serves(disk, g, map_, limit, recs)
    requires st.n <= cap && InVolume(out[..st.n], g.clusters) && Accounts(st, out[..st.n], ps)
    requires SoFar(recs, recno, ownSeq, done, ps, ext, hope, want) && xs == done + [x] + rest
    requires hope ==> Walkable(g, recs, recno, ownSeq, xs, cap, want)
    modifies rec, out
    ensures e == 0 ==> st'.n <= cap && InVolume(out[..st'.n], g.clusters) && Accounts(st', out[..st'.n], ps + [q])
    ensures e == 0 ==> SoFar(recs, recno, ownSeq, done + [x], ps + [q], ext', hope, want)
    ensures hope ==> e == 0
  {
    st', ext', q := st, ext, Part(Piece(0, [], 0, Nowhere.h, []), []);
    ghost var next := q;
    if hope {
      WalkableNext(g, recs, recno, ownSeq, xs, cap, want, done, x, rest);
      next := want[|ps|];
      assert Concat(want[..|ps|]) == Concat(ps);
    }
    ExtensionsNext(done, x, recno);
    if x.lowest != st.vcn {
      return E_GAP, st, ext, q;
    }
    if x.reference % TWO48 != recno {
      ext' := ext + 1;
      if ext' > MAX_EXTENSIONS {
        return E_TOO_MANY_EXTENSIONS, st, ext', q;
      }
    }
    e, st', q := ListStep(disk, g, map_, limit, recno, ownSeq, x, st, rec, out, cap, recs, ps, next);
    if e == 0 {
      PartNext(recs, recno, ownSeq, done, ps, x, q);
      SoFarNext(recs, recno, ownSeq, done, ps, ext, hope, want, x, q, ext');
    }
  }

  /** The list loop of walk(), over what is ahead in the list. */
  method WalkAhead(disk: Disk, g: Geometry, map_: seq<Run>, limit: u64, recno: u64, ownSeq: nat, al: seq<byte>,
                   rec: array<byte>, out: array<Run>, cap: nat, ghost recs: Mft, ghost whole: Tail, ghost want: seq<Part>)
    returns (e: int, st: Seg, ghost ps: seq<Part>)
    requires Sane(g) && InVolume(map_, g.clusters) && rec.Length == MAX_RECORD && cap <= out.Length && Serves(disk, g, map_, limit, recs)
    requires ListAhead(al, 0, whole)
    modifies rec, out
    ensures e == 0 ==> st.n <= cap && InVolume(out[..st.n], g.clusters) && Accounts(st, out[..st.n], ps)
    ensures e == 0 ==> AllDrawn(recs, recno, ownSeq, ps) && whole.tiled && Enumerates(whole.datas, recno, ps)
    ensures whole.tiled && Walkable(g, recs, recno, ownSeq, whole.datas, cap, want) ==> e == 0 && ps == want
  {
    st, ps := Seg(0, 0, 0, 0, 0), [];
    var p: nat, ext: nat := 0, 0;
    e := 0;
    ghost var hope := whole.tiled && Walkable(g, recs, recno, ownSeq, whole.datas, cap, want);
    ghost var done: seq<Entry>, rest := [], whole;
    while p < |al|
      invariant p <= |al| && ListAhead(al, p, rest) && whole.datas == done + rest.datas && rest.tiled == whole.tiled
      invariant st.n <= cap && InVolume(out[..st.n], g.clusters) && Accounts(st, out[..st.n], ps)
      invariant SoFar(recs, recno, ownSeq, done, ps, ext, hope, want)
      invariant e == 0
      decreases |al| - p
    {
      var x, next;
      x, next, rest := NextEntry(al, p, done, rest);
      if x.None? {
        return E_ATTR_LIST, st, ps;
      }
      if x.value.kind == AT_DATA && x.value.nameLength == 0 {
        ghost var q;
        e, st, ext, q := TakeEntry(disk, g, map_, limit, recno, ownSeq, x.value, st, ext, rec, out, cap, recs,
                                   whole.datas, done, rest.datas, ps, hope, want);
        if e != 0 {
          return;
        }
        done, ps := done + [x.value], ps + [q];
      }
      p := next;
    }
    NoneAhead(al, p, rest);
    WalkedAll(g, recs, recno, ownSeq, whole.datas, done, rest.datas, ps, ext, cap, hope, want);
  }

  lemma {:induction false} WalkedAll(g: Geometry, recs: Mft, recno: nat, ownSeq: nat, xs: seq<Entry>, done: seq<Entry>, rest: seq<Entry>, ps: seq<Part>, ext: nat,
                  cap: nat, hope: bool, want: seq<Part>)
    requires SoFar(recs, recno, ownSeq, done, ps, ext, hope, want) && xs == done + rest && rest == []
    requires hope ==> Walkable(g, recs, recno, ownSeq, xs, cap, want)
    ensures AllDrawn(recs, recno, ownSeq, ps) && Enumerates(xs, recno, ps) && (hope ==> ps == want)
  {
    assert xs == done;
    if hope {
      assert |ps| == |want| && want[..|want|] == want;
    }
  }

  /** The list loop of walk(): every unnamed $DATA entry in turn; whenever the list fills up with entries
      that are walkable as `want`. */
  method WalkList(disk: Disk, g: Geometry, map_: seq<Run>, limit: u64, recno: u64, ownSeq: nat, al: seq<byte>,
                  rec: array<byte>, out: array<Run>, cap: nat, ghost recs: Mft, ghost want: seq<Part>)
    returns (e: int, st: Seg, ghost ps: seq<Part>)
    requires Sane(g) && InVolume(map_, g.clusters) && rec.Length == MAX_RECORD && cap <= out.Length && Serves(disk, g, map_, limit, recs)
    modifies rec, out
    ensures e == 0 ==> st.n <= cap && InVolume(out[..st.n], g.clusters) && Accounts(st, out[..st.n], ps)
    ensures e == 0 ==> AllDrawn(recs, recno, ownSeq, ps) && Listed(al, recno, ps)
    ensures Tiled(al, 0) && Walkable(g, recs, recno, ownSeq, Entries(al, 0, false), cap, want) ==> e == 0 && ps == want
  {
    e, st, ps := WalkAhead(disk, g, map_, limit, recno, ownSeq, al, rec, out, cap, recs,
                           Tail(Entries(al, 0, false), Entries(al, 0, true), Tiled(al, 0)), want);
  }

  lemma {:induction false} ExtensionsNext(done: seq<Entry>, x: Entry, recno: nat)
    ensures Extensions(done + [x], recno) == Extensions(done, recno) + if x.reference % TWO48 != recno then 1 else 0
  {
    assert (done + [x])[..|done + [x]| - 1] == done;
  }

  /** The only unnamed $DATA of the base record, which fits and has room. */
  ghost predicate OnlyData(g: Geometry, recs: Mft, recno: nat, r: seq<byte>, cap: nat, q: Part)
    requires Checked(r)
  {
    && |Datas(r)| == 1 && q.piece.recno == recno && q.piece.rec == r && Place(q.piece.pos, q.piece.h) == Datas(r)[0]
    && Drawn(recs, recno, Sequence(r), q.piece) && Follows(g, q, 0) && |q.runs| <= cap
  }

  /** Without an attribute list: the one unnamed $DATA of the base record; whenever it is `want`. */
  method WalkBase(g: Geometry, recno: u64, r: seq<byte>, ndata: nat, data: Option<Place>, out: array<Run>, cap: nat,
                  ghost recs: Mft, ghost want: Part)
    returns (e: int, st: Seg, ghost ps: seq<Part>)
    requires LiveRecord(recs, recno, r) && BaseReference(r) == 0 && cap <= out.Length
    requires |Datas(r)| == ndata && (ndata > 0 ==> data == Some(Datas(r)[0]))
    modifies out
    ensures e == 0 ==> ndata == 1 && |ps| == 1 && ps[0].piece.recno == recno && ps[0].piece.rec == r && Place(ps[0].piece.pos, ps[0].piece.h) == Datas(r)[0]
    ensures e == 0 ==> AllDrawn(recs, recno, Sequence(r), ps)
    ensures e == 0 ==> st.n <= cap && InVolume(out[..st.n], g.clusters) && Accounts(st, out[..st.n], ps)
    ensures OnlyData(g, recs, recno, r, cap, want) ==> e == 0 && ps == [want]
  {
    st, ps := Seg(0, 0, 0, 0, 0), [];
    if ndata == 0 {
      return E_NO_DATA, st, ps;
    }
    if ndata > 1 {
      return E_DUPLICATE_DATA, st, ps;
    }
    OnlyPiece(g, recs, recno, r, cap, want);
    e, st, ps := FirstSegment(g, PieceOf(recno, r, data.value), out, cap, want);
    if e == 0 {
      DrawnOne(recs, recno, Sequence(r), ps);
    }
  }

  /** The only unnamed $DATA of a live base record is a segment of it, and whatever else is said to be that
      is the same. */
  lemma {:induction false} OnlyPiece(g: Geometry, recs: Mft, recno: nat, r: seq<byte>, cap: nat, want: Part)
    requires LiveRecord(recs, recno, r) && BaseReference(r) == 0 && |Datas(r)| == 1
    ensures var x := Datas(r)[0];
            && x.pos + x.h.size <= |r| && Drawn(recs, recno, Sequence(r), PieceOf(recno, r, x)) && Fresh(PieceOf(recno, r, x))
            && (OnlyData(g, recs, recno, r, cap, want) ==> want.piece == PieceOf(recno, r, x))
  {
    FoundSits(r, BytesInUse(r), AttrsOffset(r), false);
    var x := Datas(r)[0];
    assert x in Datas(r);
    PieceDrawn(recs, recno, Sequence(r), recno, r, x);
  }

  lemma {:induction false} DrawnOne(recs: Mft, recno: nat, ownSeq: nat, ps: seq<Part>)
    requires |ps| == 1 && Drawn(recs, recno, ownSeq, ps[0].piece)
    ensures AllDrawn(recs, recno, ownSeq, ps)
  {
  }

  /** segment() on a file of one segment. */
  method FirstSegment(g: Geometry, p: Piece, out: array<Run>, cap: nat, ghost want: Part) returns (e: int, st: Seg, ghost ps: seq<Part>)
    requires Fresh(p) && cap <= out.Length
    modifies out
    ensures e == 0 ==> |ps| == 1 && ps[0].piece == p && st.n <= cap && InVolume(out[..st.n], g.clusters) && Accounts(st, out[..st.n], ps)
    ensures want.piece == p && Follows(g, want, 0) && |want.runs| <= cap ==> e == 0 && ps == [want]
  {
    ghost var part;
    e, st, part := Segment(g, p, Seg(0, 0, 0, 0, 0), out, cap, [], want);
    ps := [part];
    assert [] + [part] == ps;
  }

  /** The closing checks of walk(): the runs hold the allocated size, which bounds the data. */
  method CloseWalk(g: Geometry, st: Seg) returns (e: int)
    requires g.clusterBytes > 0
    ensures e == 0 <==> st.vcn * g.clusterBytes == st.alloc && st.size <= st.alloc && st.init == st.size && st.size % 512 == 0
  {
    GuardExact(st.vcn, g.clusterBytes);
    var product: nat := st.vcn * g.clusterBytes;
    if st.vcn > (TWO64 - 1) / g.clusterBytes || product != st.alloc || st.size > st.alloc {
      return E_ALLOCATED_SIZE;
    }
    if st.init != st.size {
      return E_NOT_INITIALIZED;
    }
    if st.size % 512 != 0 {
      return E_UNALIGNED;
    }
    e := 0;
  }

  /** The base record, scanned; exactly when it is a base record whose attributes end and hold at most one
      attribute list. */
  method ReadBase(disk: Disk, g: Geometry, map_: seq<Run>, limit: u64, recno: u64, seqNo: nat, rec: array<byte>, ghost recs: Mft)
    returns (e: int, r: seq<byte>, list: Option<Place>, ndata: nat, data: Option<Place>)
    requires Sane(g) && InVolume(map_, g.clusters) && rec.Length == MAX_RECORD && Serves(disk, g, map_, limit, recs)
    modifies rec
    ensures e == 0 ==> BaseRecord(recs, recno, seqNo, r) && Scanned(r, list, ndata, data)
    ensures forall q :: BaseRecord(recs, recno, seqNo, q) && Ends(q) && |Lists(q)| <= 1 ==> e == 0 && r == q
  {
    list, ndata, data := None, 0, None;
    e, r := FetchRecord(disk, g, map_, limit, recno, rec, recs);
    if e != 0 {
      return;
    }
    if !InUse(r) {
      return E_NOT_IN_USE, r, None, 0, None;
    }
    if IsDirectory(r) {
      return E_DIRECTORY, r, None, 0, None;
    }
    if seqNo != 0 && Sequence(r) != seqNo {
      return E_SEQUENCE, r, None, 0, None;
    }
    if BaseReference(r) != 0 {
      return E_NOT_BASE, r, None, 0, None;
    }
    e, list, ndata, data := ScanBase(r);
  }

  /** The list can be read to be al, which fills up with entries that are walkable as ps. */
  ghost predicate LoadedAs(disk: Disk, g: Geometry, recs: Mft, recno: nat, r: seq<byte>, x: Place, cap: nat, al: seq<byte>, ps: seq<Part>)
    requires Checked(r)
  {
    ListBytes(disk, g, r, x, cap, al) && Tiled(al, 0) && Walkable(g, recs, recno, Sequence(r), Entries(al, 0, false), cap, ps)
  }

  /** With an attribute list: load it (out is its scratch), then walk it (out takes the runs). */
  method CollectList(disk: Disk, g: Geometry, map_: seq<Run>, limit: u64, recno: u64, r: seq<byte>, x: Place,
                     rec: array<byte>, alist: array<byte>, out: array<Run>, cap: nat,
                     ghost recs: Mft, ghost hoped: seq<byte>, ghost want: seq<Part>)
    returns (e: int, st: Seg, ghost ps: seq<Part>)
    requires Sane(g) && InVolume(map_, g.clusters) && Serves(disk, g, map_, limit, recs)
    requires rec.Length == MAX_RECORD && alist.Length == MAX_ALIST && rec != alist && cap <= out.Length
    requires Checked(r) && Bounded(x.h, |r| - x.pos) && (x.h.nonresident == 1 ==> x.h.mapping.Mapping?)
    modifies rec, alist, out
    ensures e == 0 ==> 0 < st.n <= cap && InVolume(out[..st.n], g.clusters) && Accounts(st, out[..st.n], ps)
    ensures e == 0 ==> AllDrawn(recs, recno, Sequence(r), ps) && exists al :: ListBytes(disk, g, r, x, cap, al) && Listed(al, recno, ps)
    ensures LoadedAs(disk, g, recs, recno, r, x, cap, hoped, want) && want != [] ==> e == 0 && ps == want
  {
    st, ps := Seg(0, 0, 0, 0, 0), [];
    var al;
    e, al := LoadList(disk, g, r, x, alist, out, cap, hoped);
    if e != 0 {
      return;
    }
    e, st, ps := WalkList(disk, g, map_, limit, recno, Sequence(r), al, rec, out, cap, recs, want);
    if e == 0 && st.n == 0 {
      e := E_NO_DATA;
    }
  }

  /** The segments are those walk() can take from a scanned base record. */
  ghost predicate Takeable(disk: Disk, g: Geometry, recs: Mft, recno: nat, r: seq<byte>, allowList: bool, cap: nat, al: seq<byte>, ps: seq<Part>)
    requires Checked(r)
  {
    && ps != []
    && if Lists(r) == [] then |ps| == 1 && OnlyData(g, recs, recno, r, cap, ps[0])
       else
         allowList && LoadedAs(disk, g, recs, recno, r, Lists(r)[0], cap, al, ps)
  }

  /** The segments of the file, from the base record or through its attribute list. */
  method Collect(disk: Disk, g: Geometry, map_: seq<Run>, limit: u64, recno: u64, allowList: bool,
                 r: seq<byte>, list: Option<Place>, ndata: nat, data: Option<Place>,
                 rec: array<byte>, alist: array<byte>, out: array<Run>, cap: nat,
                 ghost recs: Mft, ghost hoped: seq<byte>, ghost want: seq<Part>)
    returns (e: int, st: Seg, ghost ps: seq<Part>)
    requires Sane(g) && InVolume(map_, g.clusters) && Serves(disk, g, map_, limit, recs)
    requires rec.Length == MAX_RECORD && alist.Length == MAX_ALIST && rec != alist && cap <= out.Length
    requires LiveRecord(recs, recno, r) && BaseReference(r) == 0 && Scanned(r, list, ndata, data)
    modifies rec, alist, out
    ensures e == 0 ==> 0 < st.n <= cap && InVolume(out[..st.n], g.clusters) && Accounts(st, out[..st.n], ps)
    ensures e == 0 ==> AllDrawn(recs, recno, Sequence(r), ps) && Complete(disk, g, recno, r, allowList, cap, ps)
    ensures Takeable(disk, g, recs, recno, r, allowList, cap, hoped, want) ==> e == 0 && ps == want
  {
    if list.None? {
      e, st, ps := WalkBase(g, recno, r, ndata, data, out, cap, recs,
                            if want != [] then want[0] else Part(Piece(0, [], 0, Nowhere.h, []), []));
    } else if allowList {
      FoundSits(r, BytesInUse(r), AttrsOffset(r), true);
      assert list.value in Lists(r);
      e, st, ps := CollectList(disk, g, map_, limit, recno, r, list.value, rec, alist, out, cap, recs, hoped, want);
    } else {
      e, st, ps := E_MFT_ATTR_LIST, Seg(0, 0, 0, 0, 0), [];
    }
  }

  /** A file's map: its base record, its segments, their runs and its size. */
  datatype Map = Map(base: seq<byte>, ps: seq<Part>, runs: seq<Run>, size: nat)

  ghost predicate IsMap(disk: Disk, g: Geometry, recs: Mft, recno: nat, seqNo: nat, allowList: bool, cap: nat, m: Map) {
    FileMap(disk, g, recs, recno, seqNo, allowList, cap, m.base, m.ps, m.runs, m.size)
  }

  /** The file has a map. */
  ghost predicate HasMap(disk: Disk, g: Geometry, recs: Mft, recno: nat, seqNo: nat, allowList: bool, cap: nat) {
    exists m :: IsMap(disk, g, recs, recno, seqNo, allowList, cap, m)
  }

  /** The segments of a map can be taken one after another. */
  lemma {:induction false} MapTakeable(disk: Disk, g: Geometry, recs: Mft, recno: nat, seqNo: nat, allowList: bool, cap: nat, m: Map) returns (al: seq<byte>)
    requires Sane(g) && IsMap(disk, g, recs, recno, seqNo, allowList, cap, m)
    ensures Takeable(disk, g, recs, recno, m.base, allowList, cap, al, m.ps)
  {
    MapFollows(disk, g, recs, recno, seqNo, allowList, cap, m);
    al := [];
    if Lists(m.base) == [] {
      assert FollowsAt(g, m.ps, 0);
      assert m.ps[..0] == [];
      assert Drawn(recs, recno, Sequence(m.base), m.ps[0].piece);
      ConcatNext(m.ps, 0);
    } else {
      al :| ListBytes(disk, g, m.base, Lists(m.base)[0], cap, al) && Listed(al, recno, m.ps);
    }
  }

  lemma {:induction false} MapFollows(disk: Disk, g: Geometry, recs: Mft, recno: nat, seqNo: nat, allowList: bool, cap: nat, m: Map)
    requires Sane(g) && IsMap(disk, g, recs, recno, seqNo, allowList, cap, m)
    ensures forall i :: 0 <= i < |m.ps| ==> FollowsAt(g, m.ps, i)
  {
    MulAtLeast(Total(m.runs), g.clusterBytes);
    forall i | 0 <= i < |m.ps| ensures FollowsAt(g, m.ps, i) {
      GaplessFollows(g, m.ps, i);
    }
  }

  // ---- one file, one map ---------------------------------------------------

  lemma {:induction false} ListFromUnique(disk: Disk, g: Geometry, r: seq<byte>, x: Place, cap: nat, runs: seq<Run>, al: seq<byte>, more: seq<Run>, other: seq<byte>)
    requires g.clusterBytes > 0 && x.pos + x.h.size <= |r| && x.h.mapping.Mapping?
    requires ListFrom(disk, g, r, x, cap, runs, al) && ListFrom(disk, g, r, x, cap, more, other)
    ensures al == other
  {
    ListRunsUnique(disk, g, r, x, cap, runs, al, more);
  }

  /** An attribute list has one content. */
  lemma {:induction false} ListUnique(disk: Disk, g: Geometry, r: seq<byte>, x: Place, cap: nat, al: seq<byte>, other: seq<byte>)
    requires ListBytes(disk, g, r, x, cap, al) && ListBytes(disk, g, r, x, cap, other)
    ensures al == other
  {
    if x.h.nonresident != 0 {
      forall runs, more | ListFrom(disk, g, r, x, cap, runs, al) && ListFrom(disk, g, r, x, cap, more, other) ensures al == other {
        ListFromUnique(disk, g, r, x, cap, runs, al, more, other);
      }
    }
  }

  /** A plain segment is known by where it sits. */
  lemma {:induction false} PartUnique(recs: Mft, recno: nat, ownSeq: nat, p: Part, q: Part)
    requires Drawn(recs, recno, ownSeq, p.piece) && Drawn(recs, recno, ownSeq, q.piece) && Plain(p) && Plain(q)
    requires p.piece.recno == q.piece.recno && p.piece.pos == q.piece.pos && p.piece.h == q.piece.h
    ensures p == q
  {
    MapsToUnique(Pairs(p.piece.h, p.piece.body), p.runs, q.runs);
  }

  lemma {:induction false} PartsUnique(recs: Mft, recno: nat, ownSeq: nat, xs: seq<Entry>, ps: seq<Part>, qs: seq<Part>)
    requires AllNamed(xs, ps) && AllNamed(xs, qs) && AllPlain(ps) && AllPlain(qs)
    requires AllDrawn(recs, recno, ownSeq, ps) && AllDrawn(recs, recno, ownSeq, qs)
    ensures ps == qs
  {
    forall i | 0 <= i < |ps| ensures ps[i] == qs[i] {
      assert Named(xs[i], ps[i].piece) && Named(xs[i], qs[i].piece);
      assert Drawn(recs, recno, ownSeq, ps[i].piece) && Drawn(recs, recno, ownSeq, qs[i].piece);
      PartUnique(recs, recno, ownSeq, ps[i], qs[i]);
    }
  }

  /** The segments a list leads to. */
  lemma {:induction false} ListedUnique(disk: Disk, g: Geometry, recs: Mft, recno: nat, ownSeq: nat, r: seq<byte>, x: Place, cap: nat,
                                        ps: seq<Part>, qs: seq<Part>)
    requires AllPlain(ps) && AllDrawn(recs, recno, ownSeq, ps) && AllPlain(qs) && AllDrawn(recs, recno, ownSeq, qs)
    requires exists al :: ListBytes(disk, g, r, x, cap, al) && Listed(al, recno, ps)
    requires exists al :: ListBytes(disk, g, r, x, cap, al) && Listed(al, recno, qs)
    ensures ps == qs
  {
    forall al, bl | ListBytes(disk, g, r, x, cap, al) && Listed(al, recno, ps) && ListBytes(disk, g, r, x, cap, bl) && Listed(bl, recno, qs)
      ensures ps == qs
    {
      ListUnique(disk, g, r, x, cap, al, bl);
      PartsUnique(recs, recno, ownSeq, Entries(al, 0, false), ps, qs);
    }
  }

  /** The segments of a base record. */
  lemma {:induction false} CompleteUnique(disk: Disk, g: Geometry, recs: Mft, recno: nat, ownSeq: nat, r: seq<byte>, allowList: bool, cap: nat,
                                          ps: seq<Part>, qs: seq<Part>)
    requires Checked(r) && Complete(disk, g, recno, r, allowList, cap, ps) && AllPlain(ps) && AllDrawn(recs, recno, ownSeq, ps)
    requires Complete(disk, g, recno, r, allowList, cap, qs) && AllPlain(qs) && AllDrawn(recs, recno, ownSeq, qs)
    ensures ps == qs
  {
    if Lists(r) == [] {
      PartUnique(recs, recno, ownSeq, ps[0], qs[0]);
      assert ps == [ps[0]] && qs == [qs[0]];
    } else {
      ListedUnique(disk, g, recs, recno, ownSeq, r, Lists(r)[0], cap, ps, qs);
    }
  }

  /** A file has at most one map: the device settles every sector of it. */
  lemma {:induction false} MapUnique(disk: Disk, g: Geometry, recs: Mft, recno: nat, seqNo: nat, allowList: bool, cap: nat, m: Map, other: Map)
    requires IsMap(disk, g, recs, recno, seqNo, allowList, cap, m) && IsMap(disk, g, recs, recno, seqNo, allowList, cap, other)
    ensures m == other
  {
    CompleteUnique(disk, g, recs, recno, Sequence(m.base), m.base, allowList, cap, m.ps, other.ps);
  }

  /** walk(), with a map in mind: it succeeds whenever the file has that map, and then finds it. */
  method WalkTo(disk: Disk, g: Geometry, map_: seq<Run>, limit: u64, recno: u64, seqNo: nat, allowList: bool,
                rec: array<byte>, alist: array<byte>, out: array<Run>, cap: nat, ghost recs: Mft, ghost want: Map)
    returns (e: int, n: nat, size: u64, ghost base: seq<byte>, ghost ps: seq<Part>)
    requires Sane(g) && InVolume(map_, g.clusters) && recno < TWO48 && Serves(disk, g, map_, limit, recs)
    requires rec.Length == MAX_RECORD && alist.Length == MAX_ALIST && rec != alist && cap <= out.Length
    modifies rec, alist, out
    ensures e == 0 ==> n <= cap && FileMap(disk, g, recs, recno, seqNo, allowList, cap, base, ps, out[..n], size)
    ensures IsMap(disk, g, recs, recno, seqNo, allowList, cap, want) ==> e == 0 && Map(base, ps, out[..n], size) == want
  {
    n, size, base, ps := 0, 0, [], [];
    ghost var hope, hoped := IsMap(disk, g, recs, recno, seqNo, allowList, cap, want), [];
    if hope {
      hoped := MapTakeable(disk, g, recs, recno, seqNo, allowList, cap, want);
    }
    var r, list, ndata, data;
    e, r, list, ndata, data := ReadBase(disk, g, map_, limit, recno, seqNo, rec, recs);
    if e != 0 {
      return;
    }
    base := r;
    var st;
    e, st, ps := Collect(disk, g, map_, limit, recno, allowList, r, list, ndata, data, rec, alist, out, cap, recs, hoped, want.ps);
    if e != 0 {
      return;
    }
    e := CloseWalk(g, st);
    n, size := st.n, st.size;
  }

  lemma {:induction false} RecordsServe(disk: Disk, g: Geometry, runs: seq<Run>, limit: nat)
    requires g.clusterBytes > 0 && RecordSize(g.recordBytes)
    ensures Serves(disk, g, runs, limit, Records(disk, g, runs, limit))
  {
  }

  const NoMap := Map([], [], [], 0)

  /** walk: the unnamed $DATA of record recno, whole and gapless, in out[..n]; exactly when it has a map,
      and then the one anybody had in mind. */
  method Walk(disk: Disk, g: Geometry, map_: seq<Run>, limit: u64, recno: u64, seqNo: nat, allowList: bool,
              rec: array<byte>, alist: array<byte>, out: array<Run>, cap: nat, ghost recs: Mft, ghost want: Map)
    returns (e: int, n: nat, size: u64, ghost m: Map)
    requires Sane(g) && InVolume(map_, g.clusters) && recno < TWO48 && Serves(disk, g, map_, limit, recs)
    requires rec.Length == MAX_RECORD && alist.Length == MAX_ALIST && rec != alist && cap <= out.Length
    modifies rec, alist, out
    ensures e == 0 <==> HasMap(disk, g, recs, recno, seqNo, allowList, cap)
    ensures e == 0 ==> n <= cap && m.runs == out[..n] && m.size == size && IsMap(disk, g, recs, recno, seqNo, allowList, cap, m)
    ensures IsMap(disk, g, recs, recno, seqNo, allowList, cap, want) ==> m == want
  {
    ghost var hope := want;
    if HasMap(disk, g, recs, recno, seqNo, allowList, cap) && !IsMap(disk, g, recs, recno, seqNo, allowList, cap, want) {
      hope :| IsMap(disk, g, recs, recno, seqNo, allowList, cap, hope);
    }
    ghost var base, ps;
    e, n, size, base, ps := WalkTo(disk, g, map_, limit, recno, seqNo, allowList, rec, alist, out, cap, recs, hope);
    m := if e == 0 then Map(base, ps, out[..n], size) else NoMap;
    if e == 0 {
      assert IsMap(disk, g, recs, recno, seqNo, allowList, cap, m);
    }
  }

  // ---- pg_ntfs_open and pg_ntfs_file ---------------------------------------

  /** $MFT's own map: record 0 through the one run the boot sector names. */
  function BootMap(g: Geometry): seq<Run>
    requires Sane(g)
  {
    MulAtLeast(g.clusters, g.clusterBytes);
    [Run(g.mftLcn, RecordClusters(g.recordBytes, g.clusterBytes))]
  }

  lemma {:induction false} BootMapInside(g: Geometry)
    requires Sane(g)
    ensures InVolume(BootMap(g), g.clusters)
  {
  }

  /** The records the boot sector leads to: those of the one run. */
  ghost function BootRecords(disk: Disk, g: Geometry): Mft
    requires Sane(g)
  {
    Records(disk, g, BootMap(g), g.recordBytes)
  }

  /** The device holds a volume: an acceptable boot sector, and a $MFT with a map of at most cap runs. */
  ghost predicate Opens(disk: Disk, cap: nat) {
    && disk(0).Some? && BootAccepts(disk(0).value)
    && var g := GeometryOf(disk(0).value); HasMap(disk, g, BootRecords(disk, g), 0, 0, false, cap)
  }

  /** m is the map of the volume's $MFT. */
  ghost predicate IsMftMap(disk: Disk, cap: nat, m: Map) {
    && disk(0).Some? && BootAccepts(disk(0).value)
    && var g := GeometryOf(disk(0).value); IsMap(disk, g, BootRecords(disk, g), 0, 0, false, cap, m)
  }

  /** pg_ntfs_open: the geometry and the map of $MFT in mft[..nmft]; exactly when the device holds a volume. */
  method Open(disk: Disk, rec: array<byte>, alist: array<byte>, mft: array<Run>, ghost want: Map)
    returns (e: int, g: Geometry, nmft: nat, mftBytes: u64, ghost m: Map)
    requires rec.Length == MAX_RECORD && alist.Length == MAX_ALIST && rec != alist
    modifies rec, alist, mft
    ensures e == 0 <==> Opens(disk, mft.Length)
    ensures e == 0 ==> Sane(g) && IsMftMap(disk, mft.Length, m) && g == GeometryOf(disk(0).value)
    ensures e == 0 ==> nmft <= mft.Length && m.runs == mft[..nmft] && m.size == mftBytes
    ensures IsMftMap(disk, mft.Length, want) ==> m == want
  {
    g, nmft, mftBytes, m := Geometry(0, 0, 0, 0, 0), 0, 0, NoMap;
    match disk(0) {
      case None => return E_IO, g, 0, 0, m;
      case Some(b) =>
        e, g := Boot(b);
        if e != 0 {
          return;
        }
    }
    BootMapInside(g);
    RecordsServe(disk, g, BootMap(g), g.recordBytes);
    e, nmft, mftBytes, m := Walk(disk, g, BootMap(g), g.recordBytes, 0, 0, false, rec, alist, mft, mft.Length, BootRecords(disk, g), want);
  }

  /** pg_ntfs_file's identity check. */
  predicate UserFile(recno: int, seqNo: int) {
    FIRST_USER_RECORD <= recno <= MAX_RECORD_NUMBER && seqNo > 0
  }

  /** pg_ntfs_file: the unnamed $DATA runs of file (rec, seq); exactly when it is a user file with a map. */
  method File(disk: Disk, g: Geometry, mft: seq<Run>, mftBytes: u64, recno: u64, seqNo: nat,
              rec: array<byte>, alist: array<byte>, runs: array<Run>, ghost recs: Mft, ghost want: Map)
    returns (e: int, n: nat, size: u64, ghost m: Map)
    requires Sane(g) && InVolume(mft, g.clusters) && Serves(disk, g, mft, mftBytes, recs)
    requires rec.Length == MAX_RECORD && alist.Length == MAX_ALIST && rec != alist
    modifies rec, alist, runs
    ensures e == 0 <==> UserFile(recno, seqNo) && HasMap(disk, g, recs, recno, seqNo, true, runs.Length)
    ensures e == 0 ==> n <= runs.Length && m.runs == runs[..n] && m.size == size && IsMap(disk, g, recs, recno, seqNo, true, runs.Length, m)
    ensures UserFile(recno, seqNo) && IsMap(disk, g, recs, recno, seqNo, true, runs.Length, want) ==> m == want
  {
    n, size, m := 0, 0, NoMap;
    if recno < FIRST_USER_RECORD || recno > MAX_RECORD_NUMBER || seqNo == 0 {
      return E_BAD_IDENTITY, 0, 0, m;
    }
    e, n, size, m := Walk(disk, g, mft, mftBytes, recno, seqNo, true, rec, alist, runs, runs.Length, recs, want);
  }

  // ---- pg_ntfs_volume_flags ------------------------------------------------

  const VOLUME_RECORD := 3
  const VOLUME_INFORMATION_BYTES := 12

  /** The first resident $VOLUME_INFORMATION from pos on. */
  function FirstInformation(r: seq<byte>, used: nat, pos: nat): Option<Place>
    requires used <= |r|
    decreases used + 1 - pos
  {
    match AttrAt(r, used, pos)
    case Broken => None
    case EndMarker => None
    case Attribute(h) =>
      if h.kind == AT_VOLUME_INFORMATION && h.nonresident == 0 then Some(Place(pos, h)) else FirstInformation(r, used, pos + h.size)
  }

  /** r is $Volume, and has these flags. */
  ghost predicate VolumeInformation(recs: Mft, r: seq<byte>, flags: nat) {
    recs(VOLUME_RECORD) == Some(r) && Checked(r) && HasFlags(r, flags)
  }

  /** A base record in use whose first resident $VOLUME_INFORMATION is long enough and has these flags. */
  ghost predicate HasFlags(r: seq<byte>, flags: nat)
    requires Checked(r)
  {
    && InUse(r) && BaseReference(r) == 0
    && var x := FirstInformation(r, BytesInUse(r), AttrsOffset(r));
       && x.Some? && x.value.h.valueLength >= VOLUME_INFORMATION_BYTES
       && x.value.pos + x.value.h.valueOffset + VOLUME_INFORMATION_BYTES <= |r|
       && flags == LE(r, x.value.pos + x.value.h.valueOffset + 10, 2)
  }

  lemma {:induction false} FlagsUnique(recs: Mft, r: seq<byte>, flags: nat, t: seq<byte>, bits: nat)
    requires VolumeInformation(recs, r, flags) && VolumeInformation(recs, t, bits)
    ensures flags == bits
  {
  }

  /** The first resident $VOLUME_INFORMATION of a checked record, if it is long enough. */
  method FindInformation(r: seq<byte>) returns (e: int, x: Place)
    requires Checked(r)
    ensures var y := FirstInformation(r, BytesInUse(r), AttrsOffset(r));
            if e == 0 then y == Some(x) && x.h.valueLength >= VOLUME_INFORMATION_BYTES && x.pos + x.h.valueOffset + VOLUME_INFORMATION_BYTES <= |r|
            else y.None? || y.value.h.valueLength < VOLUME_INFORMATION_BYTES
  {
    var used, pos := BytesInUse(r), AttrsOffset(r);
    x := Nowhere;
    while true
      invariant pos <= used && FirstInformation(r, used, AttrsOffset(r)) == FirstInformation(r, used, pos)
      decreases used + 1 - pos
    {
      var a := ReadAttr(r, used, pos);
      match a {
        case Broken => return E_ATTR_BOUNDS, x;
        case EndMarker => return E_NO_VOLUME_INFO, x;
        case Attribute(h) =>
          if h.kind == AT_VOLUME_INFORMATION && h.nonresident == 0 {
            return if h.valueLength < VOLUME_INFORMATION_BYTES then E_NO_VOLUME_INFO else 0, Place(pos, h);
          }
          pos := pos + h.size;
      }
    }
  }

  /** pg_ntfs_volume_flags: the flags of $VOLUME_INFORMATION in $Volume; exactly when it has them. */
  method VolumeFlags(disk: Disk, g: Geometry, mft: seq<Run>, mftBytes: u64, rec: array<byte>)
    returns (e: int, flags: nat, ghost r: seq<byte>)
    requires Sane(g) && InVolume(mft, g.clusters) && rec.Length == MAX_RECORD
    modifies rec
    ensures e == 0 ==> VolumeInformation(Records(disk, g, mft, mftBytes), r, flags)
    ensures forall q, f :: VolumeInformation(Records(disk, g, mft, mftBytes), q, f) ==> e == 0 && f == flags
  {
    flags := 0;
    RecordsServe(disk, g, mft, mftBytes);
    var bytes;
    e, bytes := FetchRecord(disk, g, mft, mftBytes, VOLUME_RECORD, rec, Records(disk, g, mft, mftBytes));
    r := bytes;
    if e != 0 {
      return;
    }
    e, flags := ReadFlags(bytes);
  }

  method ReadFlags(r: seq<byte>) returns (e: int, flags: nat)
    requires Checked(r)
    ensures e == 0 <==> exists f :: HasFlags(r, f)
    ensures forall f :: HasFlags(r, f) ==> f == flags
  {
    flags := 0;
    if !InUse(r) {
      return E_NOT_IN_USE, 0;
    }
    if BaseReference(r) != 0 {
      return E_NOT_BASE, 0;
    }
    var at;
    e, at := FindInformation(r);
    if e == 0 {
      flags := LE(r, at.pos + at.h.valueOffset + 10, 2);
      assert HasFlags(r, flags);
    }
  }
}
