/** Byte buffers filled from something that answers for every byte address. */
module Buffers {
  import opened Words

  /** Bytes by address. */
  type Bytes = int -> byte

  /** n bytes from address a on. */
  function Slice(f: Bytes, a: int, n: nat): (s: seq<byte>)
    ensures |s| == n && forall j :: 0 <= j < n ==> s[j] == f(a + j)
  {
    seq(n, j => f(a + j))
  }

  /** buf[lo..lo + n) holds n bytes of f from address a on. */
  ghost predicate Filled(buf: array<byte>, lo: nat, n: nat, f: Bytes, a: int)
    reads buf
    requires lo + n <= buf.Length
  {
    forall q :: lo <= q < lo + n ==> buf[q] == f(a + (q - lo))
  }

  /** Nothing but buf[lo..lo + n) changed. */
  twostate predicate OnlyWithin(buf: array<byte>, lo: nat, n: nat)
    reads buf
  {
    forall q :: 0 <= q < buf.Length && !(lo <= q < lo + n) ==> buf[q] == old(buf[q])
  }

  /** Part of a filled stretch. */
  lemma {:induction false} FilledPart(buf: array<byte>, lo: nat, n: nat, f: Bytes, a: int, from: nat, k: nat)
    requires lo + n <= buf.Length && Filled(buf, lo, n, f, a) && from + k <= n
    ensures Filled(buf, lo + from, k, f, a + from)
  {
    forall q | lo + from <= q < lo + from + k ensures buf[q] == f(a + from + (q - (lo + from))) {
      assert buf[q] == f(a + (q - lo));
    }
  }

  /** Two filled stretches in a row. */
  lemma {:induction false} FilledMore(buf: array<byte>, lo: nat, n: nat, k: nat, f: Bytes, a: int)
    requires lo + n + k <= buf.Length && Filled(buf, lo, n, f, a) && Filled(buf, lo + n, k, f, a + n)
    ensures Filled(buf, lo, n + k, f, a)
  {
    forall q | lo <= q < lo + n + k ensures buf[q] == f(a + (q - lo)) {
      if lo + n <= q {
        assert buf[q] == f(a + n + (q - (lo + n)));
      }
    }
  }
}
