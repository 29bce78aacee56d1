/** crates/paguro-boot/src/bde.rs: DecryptingReader -- the decrypted view read through run maps and a
    one-unit cache, over a unit device or over a partition in whole blocks. The device and the view are
    byte functions; XTS is any length-preserving function of a tweak and a unit's bytes. */
module Decryption {
  import opened Words
  import opened BitLocker
  import opened Buffers
  import opened Blocks

  const MAX_UNIT := 4096

  type Cipher = (int, seq<byte>) -> seq<byte>

  // ---- the simple view -----------------------------------------------------

  /** What one unit of the view reads as. */
  function UnitBytes(dev: Bytes, l: Option<Layout>, xts: Cipher, bps: nat, u: nat): seq<byte>
    requires l.Some? ==> |l.value.metadata| == 3 && l.value.bps > 0
  {
    if l.None? then Slice(dev, u * bps, bps)
    else
      match ViewSource(l.value, u)
      case None => []
      case Some(Zero) => seq(bps, _ => 0)
      case Some(Disk(p, encrypted)) => if encrypted then xts(p, Slice(dev, p * bps, bps)) else Slice(dev, p * bps, bps)
  }

  /** Unit u of a byte view is what the layout and the cipher make of the device. */
  ghost predicate UnitAgrees(view: Bytes, dev: Bytes, l: Option<Layout>, xts: Cipher, bps: nat, u: nat)
    requires l.Some? ==> |l.value.metadata| == 3 && l.value.bps > 0
  {
    Slice(view, u * bps, bps) == UnitBytes(dev, l, xts, bps, u)
  }

  ghost predicate Decrypts(view: Bytes, dev: Bytes, l: Option<Layout>, xts: Cipher, bps: nat, units: nat)
    requires l.Some? ==> |l.value.metadata| == 3 && l.value.bps > 0
  {
    forall u: nat :: u < units ==> UnitAgrees(view, dev, l, xts, bps, u)
  }

  /** A length-preserving cipher. */
  ghost predicate KeepsLength(xts: Cipher) {
    forall t, s :: |xts(t, s)| == |s|
  }

  /** The layout, the unit size and the unit count belong together. */
  ghost predicate Consistent(l: Option<Layout>, bps: nat, units: nat) {
    && (bps == 512 || bps == 4096)
    && (l.Some? ==> WellFormed(l.value) && l.value.bps == bps && units * bps == l.value.volumeSize)
  }

  /** There is such a view, and only one on the units of the volume. */
  lemma {:induction false} ViewExists(dev: Bytes, l: Option<Layout>, xts: Cipher, bps: nat, units: nat) returns (view: Bytes)
    requires Consistent(l, bps, units) && KeepsLength(xts)
    ensures Decrypts(view, dev, l, xts, bps, units)
  {
    view := (a: int) => if 0 <= a < units * bps then ByteOf(dev, l, xts, bps, units, a) else 0;
    forall u: nat | u < units ensures UnitAgrees(view, dev, l, xts, bps, u) {
      UnitSized(dev, l, xts, bps, units, u);
      forall j | 0 <= j < bps ensures view(u * bps + j) == UnitBytes(dev, l, xts, bps, u)[j] {
        DivOf(u * bps + j, u, bps);
        MulMono(u + 1, units, bps);
        TimesPlus(u, 1, bps);
      }
    }
  }

  lemma {:induction false} UnitSized(dev: Bytes, l: Option<Layout>, xts: Cipher, bps: nat, units: nat, u: nat)
    requires Consistent(l, bps, units) && KeepsLength(xts) && u < units
    ensures |UnitBytes(dev, l, xts, bps, u)| == bps
  {
    MulMono(u + 1, units, bps);
    TimesPlus(u, 1, bps);
  }

  ghost function ByteOf(dev: Bytes, l: Option<Layout>, xts: Cipher, bps: nat, units: nat, a: nat): byte
    requires Consistent(l, bps, units) && KeepsLength(xts) && a < units * bps
  {
    DivBelow(a, bps, units);
    UnitSized(dev, l, xts, bps, units, a / bps);
    UnitBytes(dev, l, xts, bps, a / bps)[a % bps]
  }

  lemma {:induction false} ViewUnique(v: Bytes, w: Bytes, dev: Bytes, l: Option<Layout>, xts: Cipher, bps: nat, units: nat, a: nat)
    requires Consistent(l, bps, units) && Decrypts(v, dev, l, xts, bps, units) && Decrypts(w, dev, l, xts, bps, units) && a < units * bps
    ensures v(a) == w(a)
  {
    var u, r := a / bps, a % bps;
    DivParts(a, bps);
    DivBelow(a, bps, units);
    assert UnitAgrees(v, dev, l, xts, bps, u) && UnitAgrees(w, dev, l, xts, bps, u);
    assert Slice(v, u * bps, bps)[r] == Slice(w, u * bps, bps)[r];
  }

  // ---- what the view shows -------------------------------------------------

  /** A physical unit as the view shows it: its bytes, or their decryption under its own number. */
  function Shown(dev: Bytes, xts: Cipher, bps: nat, p: int, encrypted: bool): seq<byte> {
    if encrypted then xts(p, Slice(dev, p * bps, bps)) else Slice(dev, p * bps, bps)
  }

  /** The view unit by unit, said of bytes: the boot sectors from their relocated copy, zeros over that
      copy and the metadata, everything else from where it is; decrypted exactly below the encrypted size. */
  lemma {:induction false} ViewBytes(view: Bytes, dev: Bytes, l: Layout, xts: Cipher, units: nat, u: nat)
    requires Consistent(Some(l), l.bps, units) && Decrypts(view, dev, Some(l), xts, l.bps, units) && u < units
    ensures var off := u * l.bps; var p := if off < l.relocLen then l.relocOffset / l.bps + u else u;
            Slice(view, off, l.bps) ==
              if l.relocLen <= off && IsHidden(l, off) then seq(l.bps, _ => 0)
              else Shown(dev, xts, l.bps, p, p * l.bps < l.encryptedSize)
  {
    var off := u * l.bps;
    MulMono(u + 1, units, l.bps);
    TimesPlus(u, 1, l.bps);
    assert UnitAgrees(view, dev, Some(l), xts, l.bps, u);
    UnitStep(u, 0, l.bps, l.relocOffset);
    UnitStep(u, 0, l.bps, 0);
    if !(l.relocLen <= off && IsHidden(l, off)) {
      EncryptedExact(l, u);
    }
  }

  /** Of a volume that is not encrypted at all the view shows physical bytes, of a fully encrypted one only
      their decryption. */
  lemma {:induction false} ViewExtremes(view: Bytes, dev: Bytes, l: Layout, xts: Cipher, units: nat, u: nat)
    requires Consistent(Some(l), l.bps, units) && Decrypts(view, dev, Some(l), xts, l.bps, units) && u < units
    requires !(l.relocLen <= u * l.bps && IsHidden(l, u * l.bps))
    ensures var p := if u * l.bps < l.relocLen then l.relocOffset / l.bps + u else u;
            && (l.encryptedSize == 0 ==> Slice(view, u * l.bps, l.bps) == Slice(dev, p * l.bps, l.bps))
            && (l.encryptedSize == l.volumeSize ==> Slice(view, u * l.bps, l.bps) == xts(p, Slice(dev, p * l.bps, l.bps)))
  {
    ViewBytes(view, dev, l, xts, units, u);
    MulMono(u + 1, units, l.bps);
    TimesPlus(u, 1, l.bps);
    DiskSource(l, u);
    UnitStep(u, 0, l.bps, l.relocOffset);
    UnitStep(u, 0, l.bps, 0);
  }

  // ---- runs ----------------------------------------------------------------

  /** Byte j of a stretch of k units from u lies in unit u + i, at r. */
  lemma {:induction false} ByteInRun(u: nat, k: nat, bps: nat, j: nat) returns (i: nat, r: nat)
    requires bps > 0 && j < k * bps
    ensures i < k && r < bps && j == i * bps + r && u * bps + j == (u + i) * bps + r
  {
    i, r := j / bps, j % bps;
    DivParts(j, bps);
    DivBelow(j, bps, k);
    TimesPlus(u, i, bps);
  }

  lemma {:induction false} RunUnit(view: Bytes, dev: Bytes, l: Option<Layout>, xts: Cipher, bps: nat, units: nat, u: nat, src: Source, run: nat, i: nat)
    requires Consistent(l, bps, units) && l.Some? && Decrypts(view, dev, l, xts, bps, units)
    requires InStep(l.value, u, src, run) && i < run
    ensures match Onward(src, i)
            case Zero => Slice(view, (u + i) * bps, bps) == seq(bps, _ => 0)
            case Disk(p, encrypted) =>
              Slice(view, (u + i) * bps, bps) == if encrypted then xts(p, Slice(dev, p * bps, bps)) else Slice(dev, p * bps, bps)
  {
    assert ViewSource(l.value, u + i) == Some(Onward(src, i));
    MulBelow(u + i, units, bps);
    assert UnitAgrees(view, dev, l, xts, bps, u + i);
  }

  lemma {:induction false} MulBelow(a: nat, b: nat, m: nat)
    requires m > 0 && a * m < b * m
    ensures a < b
  {
    if b <= a {
      MulMono(b, a, m);
    }
  }

  lemma {:induction false} ZeroRun(view: Bytes, dev: Bytes, l: Option<Layout>, xts: Cipher, bps: nat, units: nat, u: nat, run: nat, k: nat, j: nat)
    requires Consistent(l, bps, units) && l.Some? && Decrypts(view, dev, l, xts, bps, units)
    requires InStep(l.value, u, Zero, run) && k <= run && j < k * bps
    ensures view(u * bps + j) == 0
  {
    var i, r := ByteInRun(u, k, bps, j);
    RunUnit(view, dev, l, xts, bps, units, u, Zero, run, i);
    assert Slice(view, (u + i) * bps, bps)[r] == 0;
  }

  lemma {:induction false} PlainRun(view: Bytes, dev: Bytes, l: Option<Layout>, xts: Cipher, bps: nat, units: nat, u: nat, p: int, run: nat, k: nat, j: nat)
    requires Consistent(l, bps, units) && l.Some? && Decrypts(view, dev, l, xts, bps, units)
    requires InStep(l.value, u, Disk(p, false), run) && k <= run && j < k * bps
    ensures view(u * bps + j) == dev(p * bps + j)
  {
    var i, r := ByteInRun(u, k, bps, j);
    RunUnit(view, dev, l, xts, bps, units, u, Disk(p, false), run, i);
    TimesPlus(p, i, bps);
    assert Slice(view, (u + i) * bps, bps)[r] == Slice(dev, (p + i) * bps, bps)[r];
  }

  // ---- what the reader reads from ------------------------------------------

  /** An implementation of UnitRead: any device of units, or PartIo over the blocks of a disk. */
  datatype UnitIo = AnyDevice(bytes: Bytes) | PartIo(part: Partition, unitSize: nat, disk: Bytes)

  function BytesOf(io: UnitIo): Bytes {
    match io
    case AnyDevice(bytes) => bytes
    case PartIo(part, _, disk) => PartitionBytes(part, disk)
  }

  /** It serves units of that size: blocks divide them, as the opener checks. */
  ghost predicate Serves(io: UnitIo, bps: nat) {
    io.PartIo? ==> Sound(io.part) && io.unitSize == bps && bps % io.part.blockSize == 0
  }

  /** The block of a unit is no 64-bit number. */
  ghost predicate Beyond(io: UnitIo, u: nat) {
    io.PartIo? && io.part.blockSize > 0 && UnitBlock(io.part, io.unitSize, u) >= TWO64
  }

  /** Whole units are whole blocks. */
  lemma {:induction false} WholeBlocks(io: UnitIo, bps: nat, n: nat)
    requires Serves(io, bps) && io.PartIo? && bps > 0 && n % bps == 0
    ensures n % io.part.blockSize == 0
  {
    var bs := io.part.blockSize;
    DivParts(n, bps);
    DivParts(bps, bs);
    assert n == n / bps * (bps / bs) * bs;
    DivOf(n, n / bps * (bps / bs), bs);
  }

  // ---- the reader ----------------------------------------------------------

  class Reader {
    const io: UnitIo
    const dev: Bytes
    const layout: Option<Layout>
    const xts: Cipher
    const bps: nat
    const units: u64
    ghost const view: Bytes
    var cache: array<byte>
    var cached: Option<nat>

    /** The fixed parts fit together, and `view` is the simple decrypted view. */
    ghost predicate Sees() {
      && dev == BytesOf(io) && Serves(io, bps)
      && Consistent(layout, bps, units) && KeepsLength(xts)
      && Decrypts(view, dev, layout, xts, bps, units)
    }

    /** A set `cached` unit is one of the view, and the cache holds its bytes. */
    ghost predicate Valid()
      reads this, cache
    {
      && Sees() && cache.Length == MAX_UNIT
      && (cached.Some? ==> cached.value < units && Filled(cache, 0, bps, view, cached.value * bps))
    }

    constructor New(io: UnitIo, layout: Layout, xts: Cipher)
      requires WellFormed(layout) && KeepsLength(xts) && Serves(io, layout.bps)
      ensures Valid() && fresh(cache) && cached == None && this.io == io && this.layout == Some(layout) && this.xts == xts
    {
      this.io, this.dev, this.layout, this.xts, this.bps := io, BytesOf(io), Some(layout), xts, layout.bps;
      this.units := layout.volumeSize / layout.bps;
      DivParts(layout.volumeSize, layout.bps);
      ghost var v := ViewExists(BytesOf(io), Some(layout), xts, layout.bps, layout.volumeSize / layout.bps);
      view := v;
      cache := new byte[MAX_UNIT](_ => 0);
      cached := None;
    }

    constructor Passthrough(io: UnitIo, bps: nat, units: u64, xts: Cipher)
      requires (bps == 512 || bps == 4096) && KeepsLength(xts) && Serves(io, bps)
      ensures Valid() && fresh(cache) && cached == None && this.io == io && layout == None && this.bps == bps && this.units == units
    {
      this.io, this.dev, this.layout, this.xts, this.bps, this.units := io, BytesOf(io), None, xts, bps, units;
      ghost var v := ViewExists(BytesOf(io), None, xts, bps, units);
      view := v;
      cache := new byte[MAX_UNIT](_ => 0);
      cached := None;
    }

    /** How a read inside the view may fail: as the device likes, and over a partition as Io, or as Range
        when some unit of it lies beyond the 64-bit block numbers. (A read of no units asks a
        passed-through device for none, from wherever it stands.) */
    ghost predicate MayFail(e: ReadError) {
      io.PartIo? ==> e == Io || (e == Range && exists u: nat :: (u < units || (layout.None? && u == units)) && Beyond(io, u))
    }

    /** UnitRead::read_units: whole units from the device, or its failure. */
    method ReadUnits(p: u64, buf: array<byte>, at: nat, n: nat) returns (e: Option<ReadError>)
      requires Sees() && n % bps == 0 && at + n <= buf.Length
      modifies buf
      ensures io.PartIo? ==> (e == Some(Range) <==> Beyond(io, p)) && e != Some(Alignment)
      ensures e == None ==> Filled(buf, at, n, dev, p * bps)
      ensures OnlyWithin(buf, at, n)
    {
      match io {
        case PartIo(part, unitSize, disk) =>
          WholeBlocks(io, bps, n);
          e := ReadPartUnits(part, unitSize, disk, p, buf, at, n);
        case AnyDevice(bytes) =>
          e := ReadDevice(bytes, p, buf, at, n);
      }
    }

    /** Any other device. */
    method ReadDevice(bytes: Bytes, p: u64, buf: array<byte>, at: nat, n: nat) returns (e: Option<ReadError>)
      requires at + n <= buf.Length
      modifies buf
      ensures e == None ==> Filled(buf, at, n, bytes, p * bps)
      ensures OnlyWithin(buf, at, n)
    {
      e := *;
      if e.Some? {
        return;
      }
      for j := 0 to n
        invariant forall q :: at <= q < at + j ==> buf[q] == bytes(p * bps + (q - at))
        invariant OnlyWithin(buf, at, n)
      {
        buf[at + j] := bytes(p * bps + j);
      }
    }

    /** One unit of ciphertext, decrypted in place. */
    method DecryptUnit(tweak: int, buf: array<byte>, at: nat)
      requires Sees() && at + bps <= buf.Length
      modifies buf
      ensures forall q :: at <= q < at + bps ==> buf[q] == xts(tweak, old(buf[at..at + bps]))[q - at]
      ensures OnlyWithin(buf, at, bps)
    {
      var plain := xts(tweak, buf[at..at + bps]);
      for j := 0 to bps
        invariant forall q :: at <= q < at + j ==> buf[q] == plain[q - at]
        invariant OnlyWithin(buf, at, bps)
      {
        buf[at + j] := plain[j];
      }
    }

    /** The decryption loop of read: k units that were read from p on. */
    method DecryptRun(u: nat, p: int, ghost run: nat, k: nat, buf: array<byte>, at: nat)
      requires Sees() && layout.Some? && InStep(layout.value, u, Disk(p, true), run) && k <= run
      requires at + k * bps <= buf.Length && Filled(buf, at, k * bps, dev, p * bps)
      modifies buf
      ensures Filled(buf, at, k * bps, view, u * bps)
      ensures OnlyWithin(buf, at, k * bps)
    {
      var i: nat := 0;
      var pos: nat := at;
      while i < k
        invariant i <= k && pos == at + i * bps
        invariant forall q :: at <= q < pos ==> buf[q] == view(u * bps + (q - at))
        invariant forall q :: pos <= q < at + k * bps ==> buf[q] == dev(p * bps + (q - at))
        invariant OnlyWithin(buf, at, k * bps)
      {
        TimesPlus(i, 1, bps);
        MulMono(i + 1, k, bps);
        TimesPlus(p, i, bps);
        TimesPlus(u, i, bps);
        RunUnit(view, dev, layout, xts, bps, units, u, Disk(p, true), run, i);
        assert buf[pos..pos + bps] == Slice(dev, (p + i) * bps, bps);
        DecryptUnit(p + i, buf, pos);
        forall q | pos <= q < pos + bps ensures buf[q] == view(u * bps + (q - at)) {
          assert buf[q] == Slice(view, (u + i) * bps, bps)[q - pos];
        }
        i, pos := i + 1, pos + bps;
      }
    }

    /** A disk source is a unit of the volume. */
    lemma {:induction false} SourceInside(u: nat, p: int, encrypted: bool, run: nat)
      requires Sees() && layout.Some? && InStep(layout.value, u, Disk(p, encrypted), run)
      ensures 0 <= p < units
    {
      assert ViewSource(layout.value, u + 0) == Some(Onward(Disk(p, encrypted), 0));
      DiskSource(layout.value, u);
      MulBelow(p, units, bps);
    }

    /** One turn of read: k units of the run that starts at u. */
    method FillRun(u: nat, src: Source, ghost run: nat, k: nat, buf: array<byte>, at: nat) returns (e: Option<ReadError>)
      requires Sees() && layout.Some? && InStep(layout.value, u, src, run) && k <= run && at + k * bps <= buf.Length
      modifies buf
      ensures e.Some? ==> MayFail(e.value)
      ensures e == None ==> Filled(buf, at, k * bps, view, u * bps)
      ensures OnlyWithin(buf, at, k * bps)
    {
      match src {
        case Zero =>
          forall q | at <= q < at + k * bps {
            buf[q] := 0;
          }
          forall q | at <= q < at + k * bps ensures buf[q] == view(u * bps + (q - at)) {
            ZeroRun(view, dev, layout, xts, bps, units, u, run, k, q - at);
          }
          return None;
        case Disk(p, encrypted) =>
          SourceInside(u, p, encrypted, run);
          DivOf(k * bps, k, bps);
          e := ReadUnits(p, buf, at, k * bps);
          if e.Some? {
            return;
          }
          if encrypted {
            DecryptRun(u, p, run, k, buf, at);
          } else {
            forall q | at <= q < at + k * bps ensures buf[q] == view(u * bps + (q - at)) {
              PlainRun(view, dev, layout, xts, bps, units, u, p, run, k, q - at);
            }
          }
      }
    }

    /** read: whole units of the view into buf[from..from + len). */
    method Read(unit: u64, buf: array<byte>, from: nat, len: nat) returns (e: Option<ReadError>)
      requires Sees() && from + len <= buf.Length
      modifies buf
      ensures len % bps != 0 ==> e == Some(Alignment)
      ensures len % bps == 0 && unit + len / bps > units ==> e == Some(Range)
      ensures len % bps == 0 && unit + len / bps <= units && e.Some? ==> MayFail(e.value)
      ensures e == None ==> Filled(buf, from, len, view, unit * bps)
      ensures OnlyWithin(buf, from, len)
    {
      if bps == 0 || len % bps != 0 {
        return Some(Alignment);
      }
      var n := len / bps;
      DivParts(len, bps);
      if unit + n > units {
        return Some(Range);
      }
      if layout.None? {
        e := ReadUnits(unit, buf, from, len);
        if e == None {
          PassedThrough(unit, n);
        }
        return;
      }
      e := ReadRuns(unit, n, buf, from);
    }

    /** Without a layout the view is the device. */
    lemma {:induction false} PassedThrough(unit: nat, n: nat)
      requires Sees() && layout.None? && unit + n <= units
      ensures forall a :: unit * bps <= a < (unit + n) * bps ==> view(a) == dev(a)
    {
      forall a | unit * bps <= a < (unit + n) * bps ensures view(a) == dev(a) {
        MulMono(unit + n, units, bps);
        DivParts(a, bps);
        DivBelow(a, bps, units);
        assert UnitAgrees(view, dev, layout, xts, bps, a / bps);
        assert Slice(view, a / bps * bps, bps)[a % bps] == Slice(dev, a / bps * bps, bps)[a % bps];
      }
    }

    /** The run at a unit of the view. */
    method NextRun(u: u64) returns (src: Source, run: u64)
      requires Sees() && layout.Some? && u < units
      ensures InStep(layout.value, u, src, run)
    {
      MulMono(u + 1, units, bps);
      TimesPlus(u, 1, bps);
      var r := Map(layout.value, u);
      src, run := r.value.0, r.value.1;
    }

    /** The loop of read: run after run of the layout's map. */
    method ReadRuns(unit: u64, n: nat, buf: array<byte>, from: nat) returns (e: Option<ReadError>)
      requires Sees() && layout.Some? && unit + n <= units && from + n * bps <= buf.Length
      modifies buf
      ensures e.Some? ==> MayFail(e.value)
      ensures e == None ==> Filled(buf, from, n * bps, view, unit * bps)
      ensures OnlyWithin(buf, from, n * bps)
    {
      var done: nat := 0;
      var at: nat := from;
      while done < n
        invariant done <= n && at == from + done * bps
        invariant forall q :: from <= q < at ==> buf[q] == view(unit * bps + (q - from))
        invariant OnlyWithin(buf, from, n * bps)
        decreases n - done
      {
        TimesPlus(unit, done, bps);
        var src, run := NextRun(unit + done);
        var k := if run < n - done then run else n - done;
        TimesPlus(done, k, bps);
        MulMono(done + k, n, bps);
        e := FillRun(unit + done, src, run, k, buf, at);
        if e.Some? {
          return;
        }
        done, at := done + k, at + k * bps;
      }
      e := None;
    }

    /** The cache filled with a unit, unless it holds it already. A copy is filled and put back. */
    method LoadUnit(unit: u64) returns (e: Option<ReadError>)
      requires Valid() && unit < units
      modifies this
      ensures Valid() && (cache == old(cache) || fresh(cache))
      ensures e.Some? ==> MayFail(e.value)
      ensures e == None ==> cached == Some(unit as nat)
    {
      if cached == Some(unit as nat) {
        return None;
      }
      cached := None;
      var c := new byte[MAX_UNIT](_ => 0);
      forall j | 0 <= j < MAX_UNIT {
        c[j] := cache[j];
      }
      assert bps % bps == 0 && bps / bps == 1;
      e := Read(unit, c, 0, bps);
      cache := c;
      if e == None {
        cached := Some(unit as nat);
      }
    }

    method CopyCached(within: nat, buf: array<byte>, at: nat, n: nat)
      requires Valid() && cached.Some? && within + n <= bps && at + n <= buf.Length && buf != cache
      modifies buf
      ensures Filled(buf, at, n, view, cached.value * bps + within)
      ensures OnlyWithin(buf, at, n)
    {
      for j := 0 to n
        invariant forall q :: at <= q < at + j ==> buf[q] == view(cached.value * bps + within + (q - at))
        invariant OnlyWithin(buf, at, n)
      {
        assert cache[within + j] == view(cached.value * bps + (within + j - 0));
        buf[at + j] := cache[within + j];
      }
    }

    /** One turn of read_sectors on 4096-byte units: whole units straight through, else from the cache. */
    method ReadSome(sector: u64, left: nat, buf: array<byte>, at: nat) returns (e: Option<ReadError>, took: nat)
      requires Valid() && bps == 4096 && left > 0 && sector + left <= units * 8 && at + left * 512 <= buf.Length && buf != cache
      modifies this, buf
      ensures Valid() && (cache == old(cache) || fresh(cache)) && buf != cache
      ensures e.Some? ==> MayFail(e.value)
      ensures e == None ==> 0 < took <= left && Filled(buf, at, took * 512, view, sector * 512)
      ensures OnlyWithin(buf, at, left * 512)
    {
      if sector % 8 == 0 && left >= 8 {
        var whole := left / 8;
        assert whole * 8 * 512 % 4096 == 0 && whole * 8 * 512 / 4096 == whole;
        e := Read(sector / 8, buf, at, whole * 8 * 512);
        return e, whole * 8;
      }
      e := LoadUnit(sector / 8);
      took := 0;
      if e == None {
        var within := sector % 8;
        took := if 8 - within < left then 8 - within else left;
        CopyCached(within * 512, buf, at, took * 512);
      }
    }

    /** read_sectors: the view in 512-byte sectors also where its units are larger, into buf[from..from + len). */
    method ReadSectors(sector: u64, buf: array<byte>, from: nat, len: nat) returns (e: Option<ReadError>)
      requires Valid() && buf != cache && from + len <= buf.Length
      modifies this, buf
      ensures Valid() && (cache == old(cache) || fresh(cache)) && buf != cache
      ensures len % 512 != 0 ==> e == Some(Alignment)
      ensures len % 512 == 0 && sector + len / 512 > Reach(units, bps) ==> e == Some(Range)
      ensures len % 512 == 0 && sector + len / 512 <= Reach(units, bps) && e.Some? ==> MayFail(e.value)
      ensures e == None ==> Filled(buf, from, len, view, sector * 512)
      ensures OnlyWithin(buf, from, len)
    {
      if len % 512 != 0 {
        return Some(Alignment);
      }
      if bps == 512 {
        e := Read(sector, buf, from, len);
        return;
      }
      var n := len / 512;
      if sector + n >= TWO64 || sector + n > Reach(units, bps) {
        return Some(Range);
      }
      var done: nat := 0;
      while done < n
        invariant done <= n && Valid() && buf != cache && (cache == old(cache) || fresh(cache))
        invariant forall q :: from <= q < from + done * 512 ==> buf[q] == view(sector * 512 + (q - from))
        invariant OnlyWithin(buf, from, len)
        decreases n - done
      {
        var took;
        e, took := ReadSome(sector + done, n - done, buf, from + done * 512);
        if e.Some? {
          return;
        }
        done := done + took;
      }
      e := None;
    }
  }

  /** Sectors the view reaches to, as a saturating 64-bit product. */
  function Reach(units: nat, bps: nat): nat {
    if units * (bps / 512) < TWO64 then units * (bps / 512) else TWO64 - 1
  }
}
