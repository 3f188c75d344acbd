/** Go's 64-bit signed arithmetic, where it differs from that of the integers. */
module GoInt {

  const MIN64 := -0x8000_0000_0000_0000
  const MAX64 := 0x7FFF_FFFF_FFFF_FFFF

  /** A time.Duration of one second. */
  const SECOND := 1_000_000_000

  predicate Fits64(n: int) {
    MIN64 <= n <= MAX64
  }

  /** Two's-complement wrap-around. */
  function Wrap64(n: int): (r: int)
    ensures Fits64(r) && (Fits64(n) ==> r == n)
  {
    (n - MIN64) % 0x1_0000_0000_0000_0000 + MIN64
  }

  /** Division that rounds toward zero. */
  function TruncDiv(a: int, b: int): int
    requires b > 0
  {
    if a >= 0 then a / b else -(-a / b)
  }

  /** The seconds of an instant, rounded down: time.Time.Unix. */
  function Unix(nanos: int): int {
    nanos / SECOND
  }

  /** What wraps differs from the true value by a multiple of 2^64, and there is only one such value that fits. */
  lemma WrapMeaning(n: int, r: int)
    ensures r == Wrap64(n) <==>
            -0x8000_0000_0000_0000 <= r <= 0x7FFF_FFFF_FFFF_FFFF && (n - r) % 0x1_0000_0000_0000_0000 == 0
  {
    var w := Wrap64(n);
    var m := n - MIN64;
    assert n - w == m / 0x1_0000_0000_0000_0000 * 0x1_0000_0000_0000_0000;
  }

  lemma UnixMeaning(nanos: int)
    ensures Unix(nanos) * 1_000_000_000 <= nanos < (Unix(nanos) + 1) * 1_000_000_000
    ensures nanos >= 0 <==> Unix(nanos) >= 0
  {
  }

  lemma Quotient(a: nat, b: nat, q: nat)
    requires b > 0 && q == a / b
    ensures q * b <= a < (q + 1) * b
  {
    assert a == b * q + a % b;
    assert (q + 1) * b == q * b + b;
  }

  /** The quotient of a number below zero is the mirror image of that of its opposite. */
  lemma TruncDivMeaning(a: int, b: int)
    requires b > 0
    ensures var q := TruncDiv(a, b);
            if a >= 0 then 0 <= q && q * b <= a < (q + 1) * b else q <= 0 && (q - 1) * b < a <= q * b
  {
    var q := TruncDiv(a, b);
    if a >= 0 {
      Quotient(a, b, q);
    } else {
      Quotient(-a, b, -q);
      assert -q * b == -(q * b) && (-q + 1) * b == -((q - 1) * b);
    }
  }
}
