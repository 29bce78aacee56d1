/** The protected views as an abstract machine: what pg_ctl.c and
    dm-paguro-main.c promise, said of sectors rather than extent lists. A claim
    is the sequence of sectors its file maps; a reserved range is a set of
    sectors. Every ioctl, table constructor or destructor and I/O decision is
    one atomic step, as the locking rules of pg_ctl.h allow. */
module Views {
  import opened Words
  import opened Extents
  import Claim

  const MAX_VOLUMES := 8
  const MAX_CLAIMS := 16
  const MAX_RESERVED := 8
  const MAX_EXTENTS := 65536
  const FORMAT_VHD := 1

  /** PG_E_* of the NTFS core (by number) and PG_ERR_* of the control device. */
  datatype Error =
    | NoError
    | Core(code: int)
    | Reserved
    | Claimed
    | Device
    | Geometry
    | Empty
    | NotAppend

  datatype Errno = OK | ENOENT | EINVAL | EBUSY | ENOSPC | EPERM | ENODEV | EIO

  datatype Reply = Reply(errno: Errno, error: Error)

  const E_IO := 1

  /** pg_errno: the core's code as an errno. */
  function ErrnoOf(e: Error): Errno {
    match e
    case NoError => OK
    case Core(code) => if code == E_IO then EIO else EINVAL
    case Reserved => EBUSY
    case Claimed => EBUSY
    case Device => ENODEV
    case Geometry => EINVAL
    case Empty => EINVAL
    case NotAppend => EINVAL
  }

  datatype View = NoView | ViewB | ViewC

  /** What pg_ntfs_open found: whole clusters in sectors, and the geometry that must not change. */
  datatype Shape = Shape(sectors: u64, clusterBytes: u64, recordBytes: u64, mftLcn: u64)

  ghost function Of(es: seq<Extent>): iset<int> {
    iset x | Covers(es, x)
  }

  datatype Volume =
    | FreeVolume
    | Volume(raw: int, plain: int, dirty: bool, addedReadOnly: bool, shape: Shape,
             reserved: iset<int>, view: View, viewTables: int, guardHits: int, readaheadHits: int)
  {
    predicate ReadOnly()
      requires Volume?
    {
      dirty || addedReadOnly
    }
  }

  datatype ClaimState =
    | FreeClaim
    | Live(vol: int, rec: u64, seqNo: int, format: int,
           readonly: bool, checked: bool, refused: bool,
           limit: int, file: seq<int>, imageTables: int, refusals: int)
  {
    /** Sectors of the file's data: the limit, plus a VHD's footer. */
    function DataSectors(): int
      requires Live?
    {
      limit + if format == FORMAT_VHD then 1 else 0
    }
  }

  /** A live view-A table (ti->private of paguro-image). */
  datatype Image = Image(claim: int, dev: int, len: u64, writable: bool)

  /** A live view-B or view-C table (ti->private of paguro-volume). */
  datatype Table = Table(vol: int, dev: int, mode: View, writable: bool)

  datatype State = State(volumes: seq<Volume>, claims: seq<ClaimState>, images: map<nat, Image>, views: map<nat, Table>)

  ghost function Initial(): State {
    State(seq(MAX_VOLUMES, _ => FreeVolume), seq(MAX_CLAIMS, _ => FreeClaim), map[], map[])
  }

  // ---- lookups -------------------------------------------------------------

  /** Slot of a volume or claim id (ids are slot + 1), if it is in use. */
  predicate VolumeLive(s: State, id: int) {
    1 <= id <= |s.volumes| && s.volumes[id - 1].Volume?
  }

  predicate ClaimLive(s: State, id: int) {
    1 <= id <= |s.claims| && s.claims[id - 1].Live?
  }

  /** The first index from `from` on whose slot is free, or the length. */
  function FirstFreeClaim(cs: seq<ClaimState>, from: nat): (i: nat)
    requires from <= |cs|
    ensures from <= i <= |cs|
    ensures i < |cs| ==> cs[i].FreeClaim?
    ensures forall j :: from <= j < i ==> cs[j].Live?
    decreases |cs| - from
  {
    if from == |cs| || cs[from].FreeClaim? then from else FirstFreeClaim(cs, from + 1)
  }

  function FirstFreeVolume(vs: seq<Volume>, from: nat): (i: nat)
    requires from <= |vs|
    ensures from <= i <= |vs|
    ensures i < |vs| ==> vs[i].FreeVolume?
    ensures forall j :: from <= j < i ==> vs[j].Volume?
    decreases |vs| - from
  {
    if from == |vs| || vs[from].FreeVolume? then from else FirstFreeVolume(vs, from + 1)
  }

  // ---- derivation ----------------------------------------------------------

  /** The outcome of pg_derive: the file's sectors in order and its size in bytes, or why not. */
  datatype Derived = Underived(error: Error) | Derived(file: seq<int>, size: u64)

  /** What a successful derivation guarantees about a volume of that many sectors. */
  ghost predicate Sound(d: Derived, sectors: int) {
    match d
    case Underived(error) => error != NoError
    case Derived(file, size) =>
      && NoRepeat(file)
      && (forall i :: 0 <= i < |file| ==> 0 <= file[i] < sectors)
      && size % 512 == 0 && size / 512 <= |file|
  }

  /** pg_limit: how far view A of a claim goes. A VHD ends in one sector that is not payload. */
  function Limit(format: int, size: u64): int {
    if format == FORMAT_VHD then if size / 512 > 1 then size / 512 - 1 else 0 else size / 512
  }

  ghost predicate Touches(file: seq<int>, r: iset<int>) {
    exists x :: x in file && x in r
  }

  ghost predicate Common(a: seq<int>, b: seq<int>) {
    exists x :: x in a && x in b
  }

  /** pg_conflict: a reserved range first, then any other claim on the volume. */
  ghost function Conflict(s: State, vol: int, self: int, file: seq<int>): Error
    requires 0 <= vol < |s.volumes| && s.volumes[vol].Volume?
  {
    if Touches(file, s.volumes[vol].reserved) then Reserved
    else if exists i :: 0 <= i < |s.claims| && Collides(s, vol, self, file, i) then Claimed
    else NoError
  }

  ghost predicate Collides(s: State, vol: int, self: int, file: seq<int>, i: int)
    requires 0 <= i < |s.claims|
  {
    i != self && s.claims[i].Live? && s.claims[i].vol == vol && Common(file, s.claims[i].file)
  }

  // ---- ioctls --------------------------------------------------------------

  /** A user range, [start, start + len). */
  datatype UserRange = UserRange(start: u64, len: u64)

  datatype AddArgs = AddArgs(raw: int, plain: int, flags: int, reserved: seq<UserRange>)

  /** What PG_VOLUME_ADD learns from the devices: the NTFS geometry and $Volume's dirty flag. */
  datatype Probe = Unprobed(error: Error) | Probed(shape: Shape, dirty: bool)

  predicate RangeInside(r: UserRange, sectors: int) {
    r.len > 0 && r.start + r.len <= sectors
  }

  predicate InRange(r: UserRange, x: int) {
    r.start <= x < r.start + r.len
  }

  ghost predicate InRanges(rs: seq<UserRange>, x: int) {
    exists i :: 0 <= i < |rs| && InRange(rs[i], x)
  }

  ghost function ReservedSet(rs: seq<UserRange>): iset<int> {
    iset x | InRanges(rs, x)
  }

  predicate SameDevice(v: Volume, a: AddArgs) {
    v.Volume? && (v.raw == a.raw || v.plain == a.plain)
  }

  ghost function VolumeAdd(s: State, a: AddArgs, p: Probe): (State, Reply) {
    if |a.reserved| > MAX_RESERVED || !(0 <= a.flags <= 1) then (s, Reply(EINVAL, NoError))
    else if exists i :: 0 <= i < |s.volumes| && SameDevice(s.volumes[i], a) then (s, Reply(EBUSY, Device))
    else
      var i := FirstFreeVolume(s.volumes, 0);
      if i == |s.volumes| then (s, Reply(ENOSPC, NoError))
      else match p
        case Unprobed(error) => (s, Reply(ErrnoOf(error), error))
        case Probed(shape, dirty) =>
          if exists j :: 0 <= j < |a.reserved| && !RangeInside(a.reserved[j], shape.sectors) then (s, Reply(EINVAL, NoError))
          else
            var v := Volume(a.raw, a.plain, dirty, a.flags == 1, shape, ReservedSet(a.reserved), NoView, 0, 0, 0);
            (s.(volumes := s.volumes[i := v]), Reply(OK, NoError))
  }

  predicate SameFile(c: ClaimState, vol: int, rec: u64) {
    c.Live? && c.vol == vol && c.rec == rec
  }

  ghost function MakeClaim(s: State, volId: int, format: int, rec: u64, seqNo: int, d: Derived): (State, Reply) {
    if !VolumeLive(s, volId) then (s, Reply(ENOENT, NoError))
    else if format > FORMAT_VHD then (s, Reply(EINVAL, NoError))
    else if exists i :: 0 <= i < |s.claims| && SameFile(s.claims[i], volId - 1, rec) then (s, Reply(EBUSY, Claimed))
    else
      var i := FirstFreeClaim(s.claims, 0);
      if i == |s.claims| then (s, Reply(ENOSPC, NoError))
      else
        var e := ClaimError(s, volId - 1, format, d);
        if e != NoError || d.Underived? then (s, Reply(ErrnoOf(e), e))
        else
          var c := Live(volId - 1, rec, seqNo, format, s.volumes[volId - 1].ReadOnly(), false, false,
                        Limit(format, d.size), d.file, 0, 0);
          (s.(claims := s.claims[i := c]), Reply(OK, NoError))
  }

  /** Why a claim is refused: no map, nothing to map, or a conflict. */
  ghost function ClaimError(s: State, vol: int, format: int, d: Derived): Error
    requires 0 <= vol < |s.volumes| && s.volumes[vol].Volume?
  {
    match d
    case Underived(error) => error
    case Derived(file, size) =>
      if Limit(format, size) == 0 then Empty else Conflict(s, vol, -1, file)
  }

  /** What PG_GROW decides about the re-derived map: refuse and stop writes, refuse, or accept. */
  datatype Growth = Moved(error: Error) | Blocked(error: Error) | Accepted(file: seq<int>, limit: int)

  ghost function GrowthOf(s: State, i: int, d: Derived): Growth
    requires 0 <= i < |s.claims| && s.claims[i].Live?
    requires 0 <= s.claims[i].vol < |s.volumes| && s.volumes[s.claims[i].vol].Volume?
  {
    var c := s.claims[i];
    match d
    case Underived(error) => Moved(error)
    case Derived(file, size) =>
      if !(c.file <= file) || Limit(c.format, size) < c.limit then Moved(NotAppend)
      else
        var e := Conflict(s, c.vol, i, file);
        if e != NoError then Blocked(e) else Accepted(file, Limit(c.format, size))
  }

  ghost function Grow(s: State, id: int, d: Derived): (State, Reply)
    requires ClaimLive(s, id) ==> 0 <= s.claims[id - 1].vol < |s.volumes| && s.volumes[s.claims[id - 1].vol].Volume?
  {
    if !ClaimLive(s, id) then (s, Reply(ENOENT, NoError))
    else if s.claims[id - 1].refused then (s, Reply(EPERM, NoError))
    else
      var c := s.claims[id - 1];
      match GrowthOf(s, id - 1, d)
      case Moved(error) => (s.(claims := s.claims[id - 1 := c.(readonly := true)]), Reply(OK, error))
      case Blocked(error) => (s, Reply(OK, error))
      case Accepted(file, limit) =>
        if file == c.file && limit == c.limit then (s, Reply(OK, NoError))
        else (s.(claims := s.claims[id - 1 := c.(file := file, limit := limit, checked := false)]), Reply(OK, NoError))
  }

  predicate WellFormedRange(r: UserRange) {
    r.len > 0 && r.start + r.len < TWO64
  }

  /** The user's list, range after range. */
  function Expand(rs: seq<UserRange>): seq<int> {
    if rs == [] then [] else Span(rs[0].start, rs[0].start + rs[0].len) + Expand(rs[1..])
  }

  /** Every range is non-empty and does not wrap, and the first n sectors of the list are those of the file. */
  ghost predicate Agrees(rs: seq<UserRange>, file: seq<int>, n: int) {
    && (forall i :: 0 <= i < |rs| ==> WellFormedRange(rs[i]))
    && 0 <= n <= |Expand(rs)| && n <= |file|
    && Expand(rs)[..n] == file[..n]
  }

  ghost function CrossCheck(s: State, id: int, rs: seq<UserRange>): (State, Reply) {
    if !ClaimLive(s, id) then (s, Reply(ENOENT, NoError))
    else if |rs| == 0 || |rs| > MAX_EXTENTS then (s, Reply(EINVAL, NoError))
    else if s.claims[id - 1].refused then (s, Reply(EPERM, NoError))
    else
      var c := s.claims[id - 1];
      var d := if Agrees(rs, c.file, c.DataSectors()) then c.(checked := true) else c.(checked := false, refused := true);
      (s.(claims := s.claims[id - 1 := d]), Reply(OK, NoError))
  }

  ghost function Release(s: State, id: int): (State, Reply) {
    if !ClaimLive(s, id) then (s, Reply(ENOENT, NoError))
    else if s.claims[id - 1].imageTables != 0 then (s, Reply(EBUSY, NoError))
    else (s.(claims := s.claims[id - 1 := FreeClaim]), Reply(OK, NoError))
  }

  predicate OnVolume(c: ClaimState, id: int) {
    c.Live? && c.vol + 1 == id
  }

  ghost function VolumeRemove(s: State, id: int): (State, Reply) {
    if !VolumeLive(s, id) then (s, Reply(ENOENT, NoError))
    else if exists i :: 0 <= i < |s.claims| && OnVolume(s.claims[i], id) then (s, Reply(EBUSY, NoError))
    else if s.volumes[id - 1].viewTables != 0 then (s, Reply(EBUSY, NoError))
    else (s.(volumes := s.volumes[id - 1 := FreeVolume]), Reply(OK, NoError))
  }

  // ---- tables --------------------------------------------------------------

  /** pg_image_ctr; `gate` is the verdict of the device lookup, the alignment test and the payload check. */
  ghost function ImageCtr(s: State, t: nat, id: int, len: u64, writable: bool, gate: bool): (State, bool)
    requires ClaimLive(s, id) ==> 0 <= s.claims[id - 1].vol < |s.volumes| && s.volumes[s.claims[id - 1].vol].Volume?
  {
    if !ClaimLive(s, id) then (s, false)
    else
      var c := s.claims[id - 1];
      if c.refused || !c.checked || len > c.limit || (writable && c.readonly) || !gate then (s, false)
      else
        (s.(claims := s.claims[id - 1 := c.(imageTables := c.imageTables + 1)],
            images := s.images[t := Image(id - 1, s.volumes[c.vol].plain, len, writable)]), true)
  }

  ghost function ImageDtr(s: State, t: nat): State
    requires t in s.images && 0 <= s.images[t].claim < |s.claims| && s.claims[s.images[t].claim].Live?
  {
    var i := s.images[t].claim;
    s.(claims := s.claims[i := s.claims[i].(imageTables := s.claims[i].imageTables - 1)], images := s.images - {t})
  }

  /** pg_volume_ctr; `found` is the verdict of the device lookup. */
  ghost function ViewCtr(s: State, t: nat, id: int, mode: View, writable: bool, found: bool): (State, Reply)
    requires mode != NoView
  {
    if !VolumeLive(s, id) then (s, Reply(EINVAL, NoError))
    else
      var v := s.volumes[id - 1];
      if v.view != NoView && v.view != mode then (s, Reply(EBUSY, NoError))
      else if (v.dirty && (mode == ViewB || writable)) || (v.addedReadOnly && writable) then (s, Reply(EINVAL, NoError))
      else if !found then (s, Reply(ENODEV, NoError))
      else
        (s.(volumes := s.volumes[id - 1 := v.(view := mode, viewTables := v.viewTables + 1)],
            views := s.views[t := Table(id - 1, if mode == ViewB then v.raw else v.plain, mode, writable)]), Reply(OK, NoError))
  }

  ghost function ViewDtr(s: State, t: nat): State
    requires t in s.views && 0 <= s.views[t].vol < |s.volumes| && s.volumes[s.views[t].vol].Volume?
  {
    var i := s.views[t].vol;
    var v := s.volumes[i];
    s.(volumes := s.volumes[i := v.(viewTables := v.viewTables - 1, view := if v.viewTables == 1 then NoView else v.view)],
       views := s.views - {t})
  }

  // ---- I/O -----------------------------------------------------------------

  /** A request is passed on empty, refused, or sent to sectors [sector, sector + count) of a device. */
  datatype Outcome = Flush(dev: int) | Kill | Remap(dev: int, sector: int, count: int)

  /** View A of a claim: refused by state or beyond the file, otherwise the longest physical run from
      the logical sector on, cut to the request. */
  ghost predicate ClaimOutcome(c: ClaimState, dev: int, lsec: u64, count: u64, write: bool, o: Outcome)
    requires c.Live?
  {
    if count == 0 then o == Flush(dev)
    else if c.refused || (write && c.readonly) || lsec >= |c.file| then o == Kill
    else
      && o.Remap? && o.dev == dev
      && exists left :: Claim.RunAt(c.file, lsec, o.sector, left) && o.count == if count > left then left else count
  }

  ghost predicate ImageOutcome(s: State, t: nat, lsec: u64, count: u64, write: bool, o: Outcome)
    requires t in s.images && 0 <= s.images[t].claim < |s.claims| && s.claims[s.images[t].claim].Live?
  {
    ClaimOutcome(s.claims[s.images[t].claim], s.images[t].dev, lsec, count, write, o)
  }

  ghost function ImageMap(s: State, t: nat, o: Outcome): State
    requires t in s.images && 0 <= s.images[t].claim < |s.claims| && s.claims[s.images[t].claim].Live?
  {
    var i := s.images[t].claim;
    if o == Kill then s.(claims := s.claims[i := s.claims[i].(refusals := s.claims[i].refusals + 1)]) else s
  }

  /** The request wraps 64 bits or names a sector of live claim i on the volume. */
  ghost predicate HitsClaim(s: State, vol: int, sector: u64, count: u64, i: int)
    requires 0 <= i < |s.claims|
  {
    && s.claims[i].Live? && s.claims[i].vol == vol
    && (sector + count >= TWO64 || exists x :: sector <= x < sector + count && x in s.claims[i].file)
  }

  ghost predicate ViewOutcome(s: State, t: nat, sector: u64, count: u64, o: Outcome)
    requires t in s.views
  {
    if count == 0 then o == Flush(s.views[t].dev)
    else if exists i :: 0 <= i < |s.claims| && HitsClaim(s, s.views[t].vol, sector, count, i) then o == Kill
    else o == Remap(s.views[t].dev, sector, count)
  }

  ghost function ViewMap(s: State, t: nat, readahead: bool, o: Outcome): State
    requires t in s.views && 0 <= s.views[t].vol < |s.volumes| && s.volumes[s.views[t].vol].Volume?
  {
    var i := s.views[t].vol;
    var v := s.volumes[i];
    if o != Kill then s
    else if readahead then s.(volumes := s.volumes[i := v.(readaheadHits := v.readaheadHits + 1)])
    else s.(volumes := s.volumes[i := v.(guardHits := v.guardHits + 1)])
  }
}
