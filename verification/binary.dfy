/** Bytes and the fixed-width integer behaviour the readers rely on. */
module Binary {

  /** An octet; the sign of Java's `byte` plays no role in the model. */
  type byte = b: int | 0 <= b < 256

  /** `Integer.MAX_VALUE` and `Integer.MIN_VALUE`. */
  const IntMax: int := 0x7fff_ffff
  const IntMin: int := -0x8000_0000

  /** `n` zero bytes: what the sparse zero stream produces. */
  function Zeros(n: nat): (z: seq<byte>)
    ensures |z| == n
    ensures forall i :: 0 <= i < n ==> z[i] == 0
  {
    seq(n, _ => 0)
  }

  /** Java's narrowing cast `(int) x` of a `long`: keeps the low 32 bits,
      read as a two's-complement value. */
  function ToInt32(x: int): (r: int)
    ensures IntMin <= r <= IntMax
    ensures IntMin <= x <= IntMax ==> r == x
    ensures (r - x) % 0x1_0000_0000 == 0
  {
    (x - IntMin) % 0x1_0000_0000 + IntMin
  }

  function Min(a: int, b: int): (m: int)
    ensures m <= a && m <= b
    ensures m == a || m == b
  {
    if a <= b then a else b
  }

  /** Quotient and remainder are the only such pair. */
  lemma {:induction false} DivModUnique(a: int, q: int, r: int, m: int)
    requires m > 0 && a == q * m + r && 0 <= r < m
    ensures a % m == r && a / m == q
  {
    var d := a / m - q;
    assert d * m == (a / m) * m - q * m;
    assert -m < d * m < m;
    assert d == 0;
  }
}
