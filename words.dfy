/** Machine words of the encoder: the `u8` value type, the `usize` key and index type,
    and the few facts about division by powers of two that bit expansion relies on. */
module Words {

  /** Number of distinct `usize` values on a 64-bit target. */
  const USIZE_MODULUS: nat := 0x1_0000_0000_0000_0000

  /** Rust's `usize`. */
  type Usize = n: nat | n < USIZE_MODULUS

  /** The crate's `ValueType`, a `u8`. */
  type ValueType = v: nat | v < 256

  /** `core::mem::size_of::<ValueType>() * 8`: bits per value, and index slots per key. */
  const OFFSET: nat := 8

  function Pow2(n: nat): (r: nat)
    ensures r >= 1
  {
    if n == 0 then 1 else 2 * Pow2(n - 1)
  }

  /** Bit `k` of `v`, counting from the least significant bit. */
  predicate Bit(v: nat, k: nat) {
    (v / Pow2(k)) % 2 == 1
  }

  lemma DivModUnique(x: nat, d: nat, q: nat, r: nat)
    requires d > 0 && r < d && x == d * q + r
    ensures x / d == q && x % d == r
  {
    var q', r' := x / d, x % d;
    if q < q' {
      MulDistance(d, q, q');
    } else if q > q' {
      MulDistance(d, q', q);
    }
  }

  lemma MulDistance(d: nat, lo: nat, hi: nat)
    requires lo < hi
    ensures d * hi >= d * lo + d
  {
    var k := hi - lo - 1;
    assert d * hi == d * lo + d + d * k;
  }

  /** Halving, then dividing by `p`, is dividing by `2 * p`. */
  lemma HalveThenDivide(x: nat, p: nat)
    requires p > 0
    ensures (x / 2) / p == x / (2 * p)
    ensures 2 * ((x / 2) % p) + x % 2 == x % (2 * p)
  {
    var h, l := x / 2, x % 2;
    var a, b := h / p, h % p;
    assert h == p * a + b;
    assert x == (2 * p) * a + (2 * b + l);
    DivModUnique(x, 2 * p, a, 2 * b + l);
  }
}
