/** pg_runlist_decode (kernel/dm-paguro/pg_ntfs.c): NTFS mapping pairs. The
    partner of the decoder is the encoder of NTFS itself: mapping pairs written
    with any field widths that hold them. */
module Runlist {
  import opened Words

  /** `count` clusters from logical cluster `lcn`. */
  datatype Run = Run(lcn: u64, count: u64)

  const MAX_FIELD := 8

  // PG_E_RL_* codes (pg_ntfs.h)
  const RL_TRUNCATED := 50
  const RL_FIELD_TOO_WIDE := 51
  const RL_SPARSE := 52
  const RL_ZERO_LENGTH := 53
  const RL_NEGATIVE_LCN := 54
  const RL_OVERFLOW := 55
  const RL_TOO_MANY_RUNS := 56
  const RL_UNTERMINATED := 57

  // ---- little-endian fields ------------------------------------------------

  function Pow256(n: nat): nat {
    if n == 0 then 1 else 256 * Pow256(n - 1)
  }

  /** The unsigned little-endian value of b[lo..hi]. */
  function Value(b: seq<byte>, lo: nat, hi: nat): nat
    requires lo <= hi <= |b|
    decreases hi - lo
  {
    if lo == hi then 0 else b[lo] + 256 * Value(b, lo + 1, hi)
  }

  /** The unsigned little-endian value of the n bytes at b[at..]. */
  function LE(b: seq<byte>, at: nat, n: nat): nat
    requires at + n <= |b|
  {
    Value(b, at, at + n)
  }

  /** Their two's-complement value. */
  function SignedLE(b: seq<byte>, at: nat, n: nat): int
    requires at + n <= |b|
  {
    if n > 0 && 2 * LE(b, at, n) >= Pow256(n) then LE(b, at, n) - Pow256(n) else LE(b, at, n)
  }

  /** The n-byte little-endian field of a value. */
  function ToLE(v: nat, n: nat): (b: seq<byte>)
    ensures |b| == n
  {
    if n == 0 then [] else [v % 256] + ToLE(v / 256, n - 1)
  }

  lemma {:induction false} LEBound(b: seq<byte>, at: nat, n: nat)
    requires at + n <= |b|
    ensures LE(b, at, n) < Pow256(n)
    decreases n
  {
    if n > 0 {
      LEBound(b, at + 1, n - 1);
    }
  }

  /** The value depends on the field's own bytes only. */
  lemma {:induction false} LESame(b: seq<byte>, at: nat, c: seq<byte>, to: nat, n: nat)
    requires at + n <= |b| && to + n <= |c|
    requires b[at..at + n] == c[to..to + n]
    ensures LE(b, at, n) == LE(c, to, n)
    decreases n
  {
    if n > 0 {
      assert b[at] == b[at..at + n][0] == c[to..to + n][0] == c[to];
      assert b[at + 1..at + n] == b[at..at + n][1..] == c[to..to + n][1..] == c[to + 1..to + n];
      LESame(b, at + 1, c, to + 1, n - 1);
    }
  }

  lemma {:induction false} LERoundTrip(v: nat, n: nat)
    requires v < Pow256(n)
    ensures LE(ToLE(v, n), 0, n) == v
  {
    if n > 0 {
      LERoundTrip(v / 256, n - 1);
      assert ToLE(v, n)[1..n] == ToLE(v / 256, n - 1)[0..n - 1];
      LESame(ToLE(v, n), 1, ToLE(v / 256, n - 1), 0, n - 1);
    }
  }

  lemma {:induction false} DivMod256(x: byte, w: nat)
    ensures (x + 256 * w) % 256 == x && (x + 256 * w) / 256 == w
  {
  }

  lemma {:induction false} ToLERoundTrip(b: seq<byte>, at: nat, n: nat)
    requires at + n <= |b|
    ensures ToLE(LE(b, at, n), n) == b[at..at + n]
    decreases n
  {
    if n > 0 {
      ToLERoundTrip(b, at + 1, n - 1);
      DivMod256(b[at], LE(b, at + 1, n - 1));
      assert b[at..at + n] == [b[at]] + b[at + 1..at + n];
    }
  }

  lemma {:induction false} LEAppend(b: seq<byte>, at: nat, n: nat)
    requires at + n < |b|
    ensures LE(b, at, n + 1) == LE(b, at, n) + b[at + n] * Pow256(n)
    decreases n
  {
    if n == 0 {
      assert LE(b, at, 1) == b[at] + 256 * Value(b, at + 1, at + 1);
    } else {
      LEAppend(b, at + 1, n - 1);
      assert b[at + n] * Pow256(n) == 256 * (b[at + n] * Pow256(n - 1));
    }
  }

  lemma {:induction false} Pow256Values()
    ensures Pow256(0) == 1 && Pow256(1) == 0x100 && Pow256(2) == 0x1_0000 && Pow256(3) == 0x100_0000
    ensures Pow256(4) == 0x1_0000_0000 && Pow256(5) == 0x100_0000_0000 && Pow256(6) == 0x1_0000_0000_0000
    ensures Pow256(7) == 0x100_0000_0000_0000 && Pow256(8) == TWO64
  {
    assert Pow256(2) == 256 * Pow256(1);
    assert Pow256(4) == 256 * Pow256(3);
    assert Pow256(6) == 256 * Pow256(5);
    assert Pow256(8) == 256 * Pow256(7);
  }

  lemma {:induction false} Pow256Bound(n: nat)
    requires n <= MAX_FIELD
    ensures 1 <= Pow256(n) <= TWO64 && (n < MAX_FIELD ==> 2 * Pow256(n) <= TWO64)
  {
    Pow256Values();
    assert n == 0 || n == 1 || n == 2 || n == 3 || n == 4 || n == 5 || n == 6 || n == 7 || n == 8;
  }

  // ---- what the decoder computes -------------------------------------------

  datatype Decoded = Bad(code: int) | Good(runs: seq<Run>)

  function Prepend(done: seq<Run>, d: Decoded): Decoded {
    match d
    case Bad(code) => Bad(code)
    case Good(runs) => Good(done + runs)
  }

  /** One mapping pair: the end marker, a fault, or a run and its encoded length. */
  datatype Item = End | Fault(code: int) | Next(run: Run, size: nat)

  /** A run of `count` clusters `delta` away from lcn: non-empty, non-negative and below 2^64. */
  function Judge(lcn: u64, count: nat, delta: int, size: nat): Item {
    if count == 0 then Fault(RL_ZERO_LENGTH)
    else if lcn + delta < 0 then Fault(RL_NEGATIVE_LCN)
    else if lcn + delta + count >= TWO64 then Fault(RL_OVERFLOW)
    else Next(Run(lcn + delta, count), size)
  }

  /** The header byte promises a length field of 1 to 8 bytes and an offset field of 1 to 8. */
  function HeaderFault(h: byte): (code: int)
    ensures code == 0 ==> 1 <= h % 16 <= MAX_FIELD && 1 <= h / 16 <= MAX_FIELD
  {
    if h % 16 == 0 || h % 16 > MAX_FIELD || h / 16 > MAX_FIELD then RL_FIELD_TOO_WIDE
    else if h / 16 == 0 then RL_SPARSE
    else 0
  }

  /** The pair at b[pos..]. */
  function Head(b: seq<byte>, pos: nat, lcn: u64): (x: Item)
    requires pos <= |b|
    ensures x.Next? ==> 1 < x.size <= |b| - pos
    ensures x.Fault? ==> x.code != 0
  {
    if pos == |b| then Fault(RL_UNTERMINATED)
    else if b[pos] == 0 then End
    else if HeaderFault(b[pos]) != 0 then Fault(HeaderFault(b[pos]))
    else Fields(b, pos + 1, b[pos] % 16, b[pos] / 16, lcn)
  }

  /** The two fields behind the header. */
  function Fields(b: seq<byte>, pos: nat, lsz: nat, osz: nat, lcn: u64): (x: Item)
    requires pos <= |b| && 1 <= lsz && 1 <= osz
    ensures x.Next? ==> x.size == 1 + lsz + osz <= 1 + |b| - pos
    ensures x.Fault? ==> x.code != 0
  {
    if |b| - pos < lsz + osz then Fault(RL_TRUNCATED)
    else Judge(lcn, LE(b, pos, lsz), SignedLE(b, pos + lsz, osz), 1 + lsz + osz)
  }

  /** The outcome of decoding b[pos..] with the previous run at lcn and room for `room` more. */
  function Decode(b: seq<byte>, pos: nat, lcn: u64, room: nat): (d: Decoded)
    requires pos <= |b|
    decreases |b| - pos
  {
    match Head(b, pos, lcn)
    case End => Good([])
    case Fault(code) => Bad(code)
    case Next(run, size) =>
      if room == 0 then Bad(RL_TOO_MANY_RUNS)
      else Prepend([run], Decode(b, pos + size, run.lcn, room - 1))
  }

  // ---- the decoder ---------------------------------------------------------

  /** A little-endian field gathered byte by byte (the shifts of the source set disjoint bits). */
  method ReadField(b: seq<byte>, pos: nat, n: nat) returns (v: u64)
    requires n <= MAX_FIELD && pos + n <= |b|
    ensures v == LE(b, pos, n) && v < Pow256(n)
  {
    var acc: nat := 0;
    var i := 0;
    while i < n
      invariant 0 <= i <= n && acc == LE(b, pos, i)
    {
      LEAppend(b, pos, i);
      acc := acc + b[pos + i] * Pow256(i);
      i := i + 1;
    }
    Pow256Bound(n);
    LEBound(b, pos, n);
    v := acc;
  }

  /** lcn moved by a sign-extended 64-bit delta, or why not. */
  method Advance(lcn: u64, raw: u64, osz: nat) returns (next: u64, e: int)
    requires 1 <= osz <= MAX_FIELD && raw < Pow256(osz)
    ensures var to := lcn + if 2 * raw >= Pow256(osz) then raw - Pow256(osz) else raw;
            && (e == RL_NEGATIVE_LCN <==> to < 0)
            && (e == RL_OVERFLOW <==> to >= TWO64)
            && (e == 0 <==> 0 <= to < TWO64) && (e == 0 ==> next == to)
            && (e == 0 || e == RL_NEGATIVE_LCN || e == RL_OVERFLOW)
  {
    Pow256Bound(osz);
    Pow256Values();
    var delta: u64 := raw;
    if osz < MAX_FIELD && 2 * raw >= Pow256(osz) {
      delta := raw + (TWO64 - Pow256(osz));
    }
    next := lcn;
    e := 0;
    if delta >= TWO64 / 2 {
      var back := Sub64(0, delta);
      if back > lcn {
        return lcn, RL_NEGATIVE_LCN;
      }
      next := lcn - back;
    } else {
      if Add64(lcn, delta) < lcn {
        return lcn, RL_OVERFLOW;
      }
      next := lcn + delta;
    }
  }

  method ReadFields(b: seq<byte>, pos: nat, lsz: nat, osz: nat, lcn: u64) returns (x: Item)
    requires pos <= |b| && 1 <= lsz <= MAX_FIELD && 1 <= osz <= MAX_FIELD
    ensures x == Fields(b, pos, lsz, osz, lcn)
  {
    if |b| - pos < lsz {
      return Fault(RL_TRUNCATED);
    }
    var count := ReadField(b, pos, lsz);
    if |b| - (pos + lsz) < osz {
      return Fault(RL_TRUNCATED);
    }
    var raw := ReadField(b, pos + lsz, osz);
    if count == 0 {
      return Fault(RL_ZERO_LENGTH);
    }
    var next, e := Advance(lcn, raw, osz);
    if e != 0 {
      return Fault(e);
    }
    if Add64(next, count) < next {
      return Fault(RL_OVERFLOW);
    }
    x := Next(Run(next, count), 1 + lsz + osz);
  }

  /** One turn of the decoder's loop. */
  method ReadPair(b: seq<byte>, pos: nat, lcn: u64) returns (x: Item)
    requires pos <= |b|
    ensures x == Head(b, pos, lcn)
  {
    if pos >= |b| {
      return Fault(RL_UNTERMINATED);
    }
    var h := b[pos];
    if h == 0 {
      return End;
    }
    var lsz, osz := h % 16, h / 16;
    if lsz == 0 || lsz > MAX_FIELD || osz > MAX_FIELD {
      return Fault(RL_FIELD_TOO_WIDE);
    }
    if osz == 0 {
      return Fault(RL_SPARSE);
    }
    x := ReadFields(b, pos + 1, lsz, osz, lcn);
  }

  lemma {:induction false} DecodeNext(b: seq<byte>, pos: nat, lcn: u64, room: nat, done: seq<Run>)
    requires pos <= |b| && room > 0 && Head(b, pos, lcn).Next?
    ensures var x := Head(b, pos, lcn);
            Prepend(done, Decode(b, pos, lcn, room)) == Prepend(done + [x.run], Decode(b, pos + x.size, x.run.lcn, room - 1))
  {
    var x := Head(b, pos, lcn);
    var d := Decode(b, pos + x.size, x.run.lcn, room - 1);
    if d.Good? {
      assert done + ([x.run] + d.runs) == done + [x.run] + d.runs;
    }
  }

  /** dec is what decoding b answers, from any position. */
  ghost predicate Decodes(b: seq<byte>, dec: (nat, u64, nat) -> Decoded) {
    forall pos: nat, lcn: u64, room: nat {:trigger Decode(b, pos, lcn, room)} :: pos <= |b| ==> dec(pos, lcn, room) == Decode(b, pos, lcn, room)
  }

  /** One turn of the loop: where it leaves the whole decoding, of which `done` is behind. */
  method Turn(b: seq<byte>, pos: nat, lcn: u64, room: nat, ghost done: seq<Run>, ghost goal: Decoded, ghost dec: (nat, u64, nat) -> Decoded)
    returns (x: Item)
    requires pos <= |b| && Decodes(b, dec) && goal == Prepend(done, dec(pos, lcn, room))
    ensures x.End? ==> goal == Good(done)
    ensures x.Fault? ==> x.code != 0 && goal == Bad(x.code)
    ensures x.Next? ==> 0 < x.size <= |b| - pos
    ensures x.Next? && room == 0 ==> goal == Bad(RL_TOO_MANY_RUNS)
    ensures x.Next? && room > 0 ==> goal == Prepend(done + [x.run], dec(pos + x.size, x.run.lcn, room - 1))
  {
    assert dec(pos, lcn, room) == Decode(b, pos, lcn, room);
    x := ReadPair(b, pos, lcn);
    if x.End? {
      assert done + [] == done;
    } else if x.Next? && room > 0 {
      DecodeNext(b, pos, lcn, room, done);
      assert dec(pos + x.size, x.run.lcn, room - 1) == Decode(b, pos + x.size, x.run.lcn, room - 1);
    }
  }

  /** out[base..] holds the runs done, and nothing outside [base, base + cap) changed. */
  twostate predicate Wrote(out: array<Run>, base: nat, cap: nat, done: seq<Run>)
    reads out
  {
    && base + |done| <= base + cap <= out.Length
    && (forall i :: base <= i < base + |done| ==> out[i] == done[i - base])
    && (forall i :: 0 <= i < out.Length && !(base <= i < base + cap) ==> out[i] == old(out[i]))
  }

  /** pg_runlist_decode into out[base..base + cap). */
  method RunlistDecode(b: seq<byte>, out: array<Run>, base: nat, cap: nat) returns (e: int, n: nat)
    requires base + cap <= out.Length
    modifies out
    ensures n <= cap && Decode(b, 0, 0, cap) == if e == 0 then Good(out[base..base + n]) else Bad(e)
    ensures forall i :: 0 <= i < out.Length && !(base <= i < base + cap) ==> out[i] == old(out[i])
  {
    ghost var done;
    ghost var dec := (pos: nat, lcn: u64, room: nat) => if pos <= |b| then Decode(b, pos, lcn, room) else Bad(0);
    e, n, done := DecodeLoop(b, out, base, cap, dec);
    assert dec(0, 0, cap) == Decode(b, 0, 0, cap);
    if e == 0 {
      assert out[base..base + n] == done;
    }
  }

  /** The decoder's loop. */
  method DecodeLoop(b: seq<byte>, out: array<Run>, base: nat, cap: nat, ghost dec: (nat, u64, nat) -> Decoded) returns (e: int, n: nat, ghost done: seq<Run>)
    requires base + cap <= out.Length && Decodes(b, dec)
    modifies out
    ensures Wrote(out, base, cap, done) && n <= cap && dec(0, 0, cap) == if e == 0 then Good(done) else Bad(e)
    ensures e == 0 ==> n == |done|
  {
    var pos := 0;
    var lcn: u64 := 0;
    n, done := 0, [];
    ghost var goal := dec(0, 0, cap);
    while true
      invariant 0 <= pos <= |b| && n == |done| <= cap && Wrote(out, base, cap, done)
      invariant goal == Prepend(done, dec(pos, lcn, cap - n))
      decreases |b| - pos
    {
      var x := Turn(b, pos, lcn, cap - n, done, goal, dec);
      match x {
        case End =>
          return 0, n, done;
        case Fault(code) =>
          return code, 0, done;
        case Next(run, size) =>
          if n == cap {
            return RL_TOO_MANY_RUNS, 0, done;
          }
          out[base + n] := run;
          done := done + [run];
          pos := pos + size;
          lcn := run.lcn;
          n := n + 1;
      }
    }
  }

  // ---- the encoder ---------------------------------------------------------

  /** A mapping pair and the widths of its two fields. */
  datatype Pair = Pair(count: nat, delta: int, lsz: nat, osz: nat)

  /** The fields hold the values, and the pair is neither sparse nor empty. */
  predicate ValidPair(p: Pair) {
    && 1 <= p.lsz <= MAX_FIELD && 1 <= p.osz <= MAX_FIELD
    && 0 < p.count < Pow256(p.lsz)
    && 0 <= 2 * p.delta + Pow256(p.osz) && 2 * p.delta < Pow256(p.osz)
  }

  predicate AllValid(ps: seq<Pair>) {
    forall i :: 0 <= i < |ps| ==> ValidPair(ps[i])
  }

  function Header(lsz: nat, osz: nat): (h: byte)
    requires 1 <= lsz <= MAX_FIELD && 1 <= osz <= MAX_FIELD
    ensures h != 0 && HeaderFault(h) == 0 && h % 16 == lsz && h / 16 == osz
  {
    osz * 16 + lsz
  }

  /** The unsigned value whose n-byte field reads as delta. */
  function Raw(delta: int, n: nat): (r: nat)
    requires 0 <= 2 * delta + Pow256(n) && 2 * delta < Pow256(n)
    ensures r < Pow256(n)
  {
    if delta < 0 then delta + Pow256(n) else delta
  }

  function EncodePair(p: Pair): (b: seq<byte>)
    requires ValidPair(p)
    ensures |b| == 1 + p.lsz + p.osz
  {
    [Header(p.lsz, p.osz)] + ToLE(p.count, p.lsz) + ToLE(Raw(p.delta, p.osz), p.osz)
  }

  /** The pairs end to end and the end marker. */
  function Encode(ps: seq<Pair>): seq<byte>
    requires AllValid(ps)
  {
    if ps == [] then [0] else EncodePair(ps[0]) + Encode(ps[1..])
  }

  /** Every run starts at a non-negative cluster and ends below 2^64. */
  predicate Fits(lcn: int, ps: seq<Pair>)
    decreases |ps|
  {
    ps == [] || (0 <= lcn + ps[0].delta && lcn + ps[0].delta + ps[0].count < TWO64 && Fits(lcn + ps[0].delta, ps[1..]))
  }

  function SumDeltas(ps: seq<Pair>): int {
    if ps == [] then 0 else ps[0].delta + SumDeltas(ps[1..])
  }

  /** Run i is pair i's count at the sum of the deltas up to and including i. */
  ghost predicate Describes(lcn: int, ps: seq<Pair>, runs: seq<Run>) {
    && |runs| == |ps|
    && forall i :: 0 <= i < |ps| ==> runs[i].count == ps[i].count && runs[i].lcn == lcn + SumDeltas(ps[..i + 1])
  }

  lemma {:induction false} DescribesCons(lcn: int, ps: seq<Pair>, run: Run, runs: seq<Run>)
    requires ps != [] && run.count == ps[0].count && run.lcn == lcn + ps[0].delta
    requires Describes(run.lcn, ps[1..], runs)
    ensures Describes(lcn, ps, [run] + runs)
  {
    forall i | 0 <= i < |ps|
      ensures ([run] + runs)[i].count == ps[i].count && ([run] + runs)[i].lcn == lcn + SumDeltas(ps[..i + 1])
    {
      assert ps[..i + 1][1..] == ps[1..][..i];
      if i > 0 {
        assert runs[i - 1].lcn == run.lcn + SumDeltas(ps[1..][..i - 1 + 1]);
      } else {
        assert ps[1..][..0] == [];
      }
    }
  }

  /** A valid header hands the decision to its two fields. */
  lemma {:induction false} HeadIsFields(b: seq<byte>, pos: nat, lsz: nat, osz: nat, lcn: u64)
    requires 1 <= lsz <= MAX_FIELD && 1 <= osz <= MAX_FIELD && pos < |b| && b[pos] == Header(lsz, osz)
    ensures Head(b, pos, lcn) == Fields(b, pos + 1, lsz, osz, lcn)
  {
  }

  lemma {:induction false} CountField(v: nat, n: nat, b: seq<byte>, pos: nat)
    requires v < Pow256(n) && pos + n <= |b| && b[pos..pos + n] == ToLE(v, n)
    ensures LE(b, pos, n) == v
  {
    assert ToLE(v, n)[0..n] == ToLE(v, n);
    LESame(b, pos, ToLE(v, n), 0, n);
    LERoundTrip(v, n);
  }

  lemma {:induction false} DeltaField(delta: int, n: nat, b: seq<byte>, pos: nat)
    requires n > 0 && 0 <= 2 * delta + Pow256(n) && 2 * delta < Pow256(n)
    requires pos + n <= |b| && b[pos..pos + n] == ToLE(Raw(delta, n), n)
    ensures SignedLE(b, pos, n) == delta
  {
    CountField(Raw(delta, n), n, b, pos);
  }

  lemma {:induction false} Slices(b: seq<byte>, pos: nat, h: byte, l: seq<byte>, o: seq<byte>)
    requires pos + 1 + |l| + |o| <= |b| && b[pos..pos + 1 + |l| + |o|] == [h] + l + o
    ensures b[pos] == h && b[pos + 1..pos + 1 + |l|] == l && b[pos + 1 + |l|..pos + 1 + |l| + |o|] == o
  {
    var f := [h] + l + o;
    var g := b[pos..pos + |f|];
    assert b[pos] == g[0];
    forall i | 0 <= i < |l| ensures b[pos + 1..pos + 1 + |l|][i] == l[i] {
      assert g[1 + i] == f[1 + i] == l[i];
    }
    forall i | 0 <= i < |o| ensures b[pos + 1 + |l|..pos + 1 + |l| + |o|][i] == o[i] {
      assert g[1 + |l| + i] == f[1 + |l| + i] == o[i];
    }
  }

  /** The two fields of an encoded pair read as its run. */
  lemma {:induction false} FieldsOfEncoded(p: Pair, b: seq<byte>, pos: nat, lcn: u64)
    requires ValidPair(p) && 0 <= lcn + p.delta && lcn + p.delta + p.count < TWO64
    requires pos + p.lsz + p.osz <= |b|
    requires b[pos..pos + p.lsz] == ToLE(p.count, p.lsz) && b[pos + p.lsz..pos + p.lsz + p.osz] == ToLE(Raw(p.delta, p.osz), p.osz)
    ensures Fields(b, pos, p.lsz, p.osz, lcn) == Next(Run(lcn + p.delta, p.count), 1 + p.lsz + p.osz)
  {
    CountField(p.count, p.lsz, b, pos);
    DeltaField(p.delta, p.osz, b, pos + p.lsz);
  }

  lemma {:induction false} HeadOfEncoded(p: Pair, b: seq<byte>, pos: nat, lcn: u64)
    requires ValidPair(p) && 0 <= lcn + p.delta && lcn + p.delta + p.count < TWO64
    requires pos + |EncodePair(p)| <= |b| && b[pos..pos + |EncodePair(p)|] == EncodePair(p)
    ensures Head(b, pos, lcn) == Next(Run(lcn + p.delta, p.count), |EncodePair(p)|)
  {
    Slices(b, pos, Header(p.lsz, p.osz), ToLE(p.count, p.lsz), ToLE(Raw(p.delta, p.osz), p.osz));
    FieldsOfEncoded(p, b, pos + 1, lcn);
    HeadIsFields(b, pos, p.lsz, p.osz, lcn);
  }

  /** Reading at pos yields exactly the runs the pairs describe, whenever there is room for them. */
  ghost predicate Reads(b: seq<byte>, pos: nat, lcn: u64, ps: seq<Pair>)
    requires pos <= |b|
  {
    forall room: nat :: |ps| <= room ==> Decode(b, pos, lcn, room).Good? && Describes(lcn, ps, Decode(b, pos, lcn, room).runs)
  }

  lemma {:induction false} ReadsCons(ps: seq<Pair>, b: seq<byte>, pos: nat, lcn: u64, size: nat)
    requires ps != [] && pos <= |b| && 0 <= lcn + ps[0].delta && lcn + ps[0].delta + ps[0].count < TWO64
    requires Head(b, pos, lcn) == Next(Run(lcn + ps[0].delta, ps[0].count), size)
    requires Reads(b, pos + size, lcn + ps[0].delta, ps[1..])
    ensures Reads(b, pos, lcn, ps)
  {
    var run := Run(lcn + ps[0].delta, ps[0].count);
    forall room: nat | |ps| <= room
      ensures Decode(b, pos, lcn, room).Good? && Describes(lcn, ps, Decode(b, pos, lcn, room).runs)
    {
      var d := Decode(b, pos + size, run.lcn, room - 1);
      assert Decode(b, pos, lcn, room) == Prepend([run], d);
      DescribesCons(lcn, ps, run, d.runs);
    }
  }

  /** The pairs are valid, stay in range from lcn on, and are encoded at pos. */
  ghost predicate EncodedAt(ps: seq<Pair>, b: seq<byte>, pos: nat, lcn: int) {
    AllValid(ps) && Fits(lcn, ps) && pos <= |b| && Encode(ps) <= b[pos..]
  }

  function Width(p: Pair): nat {
    1 + p.lsz + p.osz
  }

  lemma {:induction false} EncodedRest(ps: seq<Pair>, b: seq<byte>, pos: nat, lcn: u64)
    requires EncodedAt(ps, b, pos, lcn) && ps != []
    ensures 0 <= lcn + ps[0].delta && lcn + ps[0].delta + ps[0].count < TWO64 && ValidPair(ps[0])
    ensures EncodedAt(ps[1..], b, pos + Width(ps[0]), lcn + ps[0].delta)
    ensures b[pos..pos + Width(ps[0])] == EncodePair(ps[0])
  {
    EncodedApart(EncodePair(ps[0]), Encode(ps[1..]), b, pos);
  }

  lemma {:induction false} EncodedReads(ps: seq<Pair>, b: seq<byte>, pos: nat, lcn: u64)
    requires EncodedAt(ps, b, pos, lcn) && ps != [] && 0 <= lcn + ps[0].delta < TWO64
    requires pos + Width(ps[0]) <= |b| && Reads(b, pos + Width(ps[0]), lcn + ps[0].delta, ps[1..])
    ensures Reads(b, pos, lcn, ps)
  {
    EncodedRest(ps, b, pos, lcn);
    HeadOfEncoded(ps[0], b, pos, lcn);
    ReadsCons(ps, b, pos, lcn, Width(ps[0]));
  }

  /** Completeness: an encoded list that fits decodes to its prefix sums, whatever surrounds it. */
  lemma {:induction false} DecodeEncode(ps: seq<Pair>, b: seq<byte>, pos: nat, lcn: u64)
    requires EncodedAt(ps, b, pos, lcn)
    ensures Reads(b, pos, lcn, ps)
    decreases |ps|
  {
    if ps == [] {
      assert b[pos..][0] == 0;
    } else {
      EncodedRest(ps, b, pos, lcn);
      DecodeEncode(ps[1..], b, pos + Width(ps[0]), lcn + ps[0].delta);
      EncodedReads(ps, b, pos, lcn);
    }
  }

  lemma {:induction false} EncodedApart(e: seq<byte>, rest: seq<byte>, b: seq<byte>, pos: nat)
    requires pos <= |b| && e + rest <= b[pos..]
    ensures pos + |e| <= |b| && b[pos..pos + |e|] == e && rest <= b[pos + |e|..]
  {
    var n := |e + rest|;
    assert b[pos..][..n] == e + rest;
    assert b[pos..pos + |e|] == b[pos..][..n][..|e|];
    assert b[pos + |e|..pos + n] == b[pos..][..n][|e|..];
    assert b[pos + |e|..][..|rest|] == b[pos + |e|..pos + n];
  }

  /** Two accepted fields are the encoding of the pair they read as. */
  lemma {:induction false} FieldsEncoded(b: seq<byte>, pos: nat, lsz: nat, osz: nat, lcn: u64) returns (p: Pair)
    requires pos <= |b| && 1 <= lsz <= MAX_FIELD && 1 <= osz <= MAX_FIELD && Fields(b, pos, lsz, osz, lcn).Next?
    ensures ValidPair(p) && p.lsz == lsz && p.osz == osz
    ensures ToLE(p.count, lsz) == b[pos..pos + lsz] && ToLE(Raw(p.delta, osz), osz) == b[pos + lsz..pos + lsz + osz]
    ensures Fields(b, pos, lsz, osz, lcn) == Judge(lcn, p.count, p.delta, 1 + lsz + osz)
  {
    p := Pair(LE(b, pos, lsz), SignedLE(b, pos + lsz, osz), lsz, osz);
    LEBound(b, pos, lsz);
    LEBound(b, pos + lsz, osz);
    ToLERoundTrip(b, pos, lsz);
    ToLERoundTrip(b, pos + lsz, osz);
    assert Raw(p.delta, osz) == LE(b, pos + lsz, osz);
  }

  lemma {:induction false} EncodedHead(b: seq<byte>, pos: nat, lcn: u64) returns (p: Pair)
    requires pos <= |b| && Head(b, pos, lcn).Next?
    ensures var x := Head(b, pos, lcn);
            && ValidPair(p) && x.size == Width(p) && EncodePair(p) == b[pos..pos + x.size]
            && x.run.count == p.count && x.run.lcn == lcn + p.delta && lcn + p.delta + p.count < TWO64
  {
    var lsz, osz := b[pos] % 16, b[pos] / 16;
    p := FieldsEncoded(b, pos + 1, lsz, osz, lcn);
    assert Header(lsz, osz) == b[pos];
    Glue(b, pos, lsz, osz);
  }

  lemma {:induction false} Glue(b: seq<byte>, pos: nat, lsz: nat, osz: nat)
    requires pos + 1 + lsz + osz <= |b|
    ensures b[pos..pos + 1 + lsz + osz] == [b[pos]] + b[pos + 1..pos + 1 + lsz] + b[pos + 1 + lsz..pos + 1 + lsz + osz]
  {
  }

  lemma {:induction false} EncodedCons(p: Pair, rest: seq<Pair>, b: seq<byte>, pos: nat, lcn: u64)
    requires ValidPair(p) && 0 <= lcn + p.delta && lcn + p.delta + p.count < TWO64
    requires pos + Width(p) <= |b| && EncodePair(p) == b[pos..pos + Width(p)]
    requires EncodedAt(rest, b, pos + Width(p), lcn + p.delta)
    ensures EncodedAt([p] + rest, b, pos, lcn)
  {
    var ps := [p] + rest;
    assert ps[1..] == rest && ps[0] == p;
    assert b[pos..] == b[pos..pos + Width(p)] + b[pos + Width(p)..];
    assert Encode(ps) == EncodePair(p) + Encode(rest);
  }

  /** What decodes starts with the end marker, or with an encoded pair and what decodes after it. */
  lemma {:induction false} Peel(b: seq<byte>, pos: nat, lcn: u64, room: nat) returns (ended: bool, p: Pair)
    requires pos <= |b| && Decode(b, pos, lcn, room).Good?
    ensures ended ==> pos < |b| && b[pos] == 0
    ensures !ended ==> && ValidPair(p) && 0 <= lcn + p.delta && lcn + p.delta + p.count < TWO64
                       && pos + Width(p) <= |b| && EncodePair(p) == b[pos..pos + Width(p)]
                       && room > 0 && Decode(b, pos + Width(p), lcn + p.delta, room - 1).Good?
  {
    var x := Head(b, pos, lcn);
    ended := x.End?;
    p := Pair(0, 0, 0, 0);
    if !ended {
      p := EncodedHead(b, pos, lcn);
    }
  }

  /** Soundness: whatever decodes is an encoded list that fits, followed by anything. */
  lemma {:induction false} EncodeDecode(b: seq<byte>, pos: nat, lcn: u64, room: nat) returns (ps: seq<Pair>)
    requires pos <= |b| && Decode(b, pos, lcn, room).Good?
    ensures EncodedAt(ps, b, pos, lcn) && |ps| <= room
    decreases |b| - pos
  {
    var ended, p := Peel(b, pos, lcn, room);
    if ended {
      ps := [];
    } else {
      var rest := EncodeDecode(b, pos + Width(p), lcn + p.delta, room - 1);
      ps := [p] + rest;
      EncodedCons(p, rest, b, pos, lcn);
    }
  }

  /** b starts with an encoded list of at most cap pairs that fits. */
  ghost predicate EncodedPrefix(b: seq<byte>, cap: nat, ps: seq<Pair>) {
    AllValid(ps) && Fits(0, ps) && |ps| <= cap && Encode(ps) <= b
  }

  /** The decoder succeeds exactly on a terminated list of valid mapping pairs within capacity,
      and then each LCN is the sum of the signed deltas so far. */
  lemma {:induction false} DecodeExact(b: seq<byte>, cap: nat)
    ensures Decode(b, 0, 0, cap).Good? <==> exists ps :: EncodedPrefix(b, cap, ps)
    ensures forall ps :: EncodedPrefix(b, cap, ps) ==>
              Decode(b, 0, 0, cap).Good? && Describes(0, ps, Decode(b, 0, 0, cap).runs)
  {
    assert b[0..] == b;
    if Decode(b, 0, 0, cap).Good? {
      var ps := EncodeDecode(b, 0, 0, cap);
      assert EncodedPrefix(b, cap, ps);
    }
    forall ps | EncodedPrefix(b, cap, ps)
      ensures Decode(b, 0, 0, cap).Good? && Describes(0, ps, Decode(b, 0, 0, cap).runs)
    {
      DecodeEncode(ps, b, 0, 0);
    }
  }

  /** Every decoded run is non-empty and ends below 2^64. */
  lemma {:induction false} DecodeFits(b: seq<byte>, pos: nat, lcn: u64, room: nat)
    requires pos <= |b| && Decode(b, pos, lcn, room).Good?
    ensures |Decode(b, pos, lcn, room).runs| <= room
    ensures forall r :: r in Decode(b, pos, lcn, room).runs ==> 0 < r.count && r.lcn + r.count < TWO64
    decreases |b| - pos
  {
    var x := Head(b, pos, lcn);
    if x.Next? {
      DecodeFits(b, pos + x.size, x.run.lcn, room - 1);
    }
  }
}
