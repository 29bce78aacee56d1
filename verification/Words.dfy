/** Machine words of the C and Rust sources: unsigned integers with the
    wrap-around written out wherever the source relies on it or guards against it. */
module Words {

  const TWO64: int := 0x1_0000_0000_0000_0000

  type u64 = x: int | 0 <= x < 0x1_0000_0000_0000_0000
  type byte = x: int | 0 <= x < 256

  /** Unsigned 64-bit addition: the sum modulo 2^64. */
  function Add64(a: u64, b: u64): (r: u64)
    ensures r < a <==> a + b >= TWO64
    ensures a + b < TWO64 ==> r == a + b
  {
    if a + b < TWO64 then a + b else a + b - TWO64
  }

  /** Unsigned 64-bit subtraction: the difference modulo 2^64. */
  function Sub64(a: u64, b: u64): (r: u64)
    ensures b <= a ==> r == a - b
    ensures Add64(r, b) == a
  {
    if b <= a then a - b else a - b + TWO64
  }

  lemma {:induction false} MulMono(a: nat, b: nat, c: nat)
    requires a <= b
    ensures a * c <= b * c
  {
  }

  lemma {:induction false} MulAtLeast(a: nat, c: nat)
    requires c >= 1
    ensures a <= a * c
  {
    MulMono(1, c, a);
  }

  lemma {:induction false} DivParts(a: nat, b: nat)
    requires b > 0
    ensures a == a / b * b + a % b && a / b <= a
  {
    MulAtLeast(a / b, b);
  }

  function Quotient(a: nat, b: nat): (q: nat)
    requires b > 0
    ensures q == a / b && q <= a
  {
    DivParts(a, b);
    a / b
  }

  lemma {:induction false} QuotientUnique(d: int, r: int, q: int, s: int, m: nat)
    requires 0 <= r < m && 0 <= s < m && d * m + r == q * m + s && d >= 0 && q >= 0
    ensures d == q && r == s
  {
    if d < q {
      MulMono(d + 1, q, m);
      TimesPlus(d, 1, m);
    } else if q < d {
      MulMono(q + 1, d, m);
      TimesPlus(q, 1, m);
    }
  }

  /** l lies in the q-th group of m. */
  lemma {:induction false} DivOf(l: nat, q: nat, m: nat)
    requires m > 0 && q * m <= l < q * m + m
    ensures l / m == q && l % m == l - q * m
  {
    DivParts(l, m);
    QuotientUnique(l / m, l % m, q, l - q * m, m);
  }

  lemma {:induction false} TimesPlus(a: int, b: int, m: int)
    ensures (a + b) * m == a * m + b * m
  {
  }

  lemma {:induction false} DivBelow(l: nat, m: nat, n: nat)
    requires m > 0
    ensures l / m < n <==> l < n * m
  {
    var q, r := l / m, l % m;
    DivParts(l, m);
    TimesPlus(q, 1, m);
    if q < n {
      MulMono(q + 1, n, m);
    } else {
      MulMono(n, q, m);
    }
  }

  datatype Option<+T> = None | Some(value: T)
}
