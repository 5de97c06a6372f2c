/**
 * Shared vocabulary of the model: the optional-value type, the machine integer
 * ranges of the Rust and C sources, and the facts about powers of two and
 * Euclidean remainders that the decoders' proofs rest on.
 */
module Common {

  datatype Option<T> = None | Some(value: T)

  type byte = b: int | 0 <= b < 0x100
  type uint16 = x: int | 0 <= x < 0x1_0000
  type uint32 = x: int | 0 <= x < 0x1_0000_0000
  type int32 = x: int | -0x8000_0000 <= x < 0x8000_0000
  type int64 = x: int | -0x8000_0000_0000_0000 <= x < 0x8000_0000_0000_0000
  type uint64 = x: int | 0 <= x < 0x1_0000_0000_0000_0000

  const U32Modulus: nat := 0x1_0000_0000
  const U64Modulus: nat := 0x1_0000_0000_0000_0000

  /** `FFMIN(a, b)` of ffi/internals.h: `a > b ? b : a`. */
  function Min(a: int, b: int): (m: int)
    ensures m <= a && m <= b && (m == a || m == b)
  {
    if a > b then b else a
  }

  function Pow2(n: nat): (r: nat)
    ensures r >= 1
  {
    if n == 0 then 1 else 2 * Pow2(n - 1)
  }

  lemma {:induction false} Pow2Add(a: nat, b: nat)
    ensures Pow2(a + b) == Pow2(a) * Pow2(b)
  {
    if a > 0 {
      Pow2Add(a - 1, b);
      assert Pow2(a + b) == 2 * Pow2(a - 1 + b);
    }
  }

  lemma {:induction false} Pow2Monotone(a: nat, b: nat)
    requires a <= b
    ensures Pow2(a) <= Pow2(b)
  {
    if a < b {
      Pow2Monotone(a, b - 1);
    }
  }

  /** The powers of two within a byte. */
  lemma Pow2Byte()
    ensures Pow2(1) == 2 && Pow2(2) == 4 && Pow2(3) == 8 && Pow2(4) == 16
    ensures Pow2(5) == 32 && Pow2(6) == 64 && Pow2(7) == 128 && Pow2(8) == 0x100
  {
    assert Pow2(1) == 2;
    assert Pow2(2) == 4;
    assert Pow2(3) == 8;
    assert Pow2(4) == 16;
    assert Pow2(5) == 32;
    assert Pow2(6) == 64;
    assert Pow2(7) == 128;
  }

  /** The machine moduli are the powers of two they stand for. */
  lemma Pow2Moduli()
    ensures Pow2(8) == 0x100 && Pow2(32) == U32Modulus && Pow2(64) == U64Modulus
  {
    Pow2Byte();
    Pow2Add(8, 8);
    Pow2Add(16, 16);
    Pow2Add(32, 32);
  }

  lemma MulAtLeast(k: int, m: int)
    requires k >= 1 && m > 0
    ensures k * m >= m
  {
    var j := k - 1;
    assert k * m == j * m + m;
    assert j * m >= 0;
  }

  /** Euclidean division is unique: quotient and remainder are determined. */
  lemma DivModUnique(x: int, m: int, q: int, r: int)
    requires m > 0 && 0 <= r < m && x == q * m + r
    ensures x % m == r && x / m == q
  {
    var d := x / m;
    assert x == d * m + x % m;
    if q > d { MulAtLeast(q - d, m); }
    if d > q { MulAtLeast(d - q, m); }
  }

  lemma ModSmall(x: int, m: int)
    requires 0 <= x < m
    ensures x % m == x
  {
    DivModUnique(x, m, 0, x);
  }

  /** Adding a multiple of m does not change the remainder modulo m. */
  lemma ModAddMultiple(k: int, m: int, z: int)
    requires m > 0
    ensures (k * m + z) % m == z % m
  {
    var q := z / m;
    assert z == q * m + z % m;
    assert k * m + z == (k + q) * m + z % m;
    DivModUnique(k * m + z, m, k + q, z % m);
  }

  /** Reducing modulo p·q and then modulo p is reducing modulo p. */
  lemma ModOfMod(x: int, p: int, q: int)
    requires p > 0 && q > 0
    ensures (x % (p * q)) % p == x % p
  {
    var d := x / (p * q);
    assert x == d * (p * q) + x % (p * q);
    assert x == (d * q) * p + x % (p * q);
    ModAddMultiple(d * q, p, x % (p * q));
  }

  /** Shifting in a byte respects congruence modulo m. */
  lemma ShiftInCongruent(x: int, y: int, c: int, m: int)
    requires m > 0 && x % m == y % m
    ensures (x * 256 + c) % m == (y * 256 + c) % m
  {
    var r := x % m;
    assert x == (x / m) * m + r;
    assert y == (y / m) * m + r;
    assert x * 256 + c == ((x / m) * 256) * m + (r * 256 + c);
    assert y * 256 + c == ((y / m) * 256) * m + (r * 256 + c);
    ModAddMultiple((x / m) * 256, m, r * 256 + c);
    ModAddMultiple((y / m) * 256, m, r * 256 + c);
  }

  /** Reducing modulo 2^64 and then modulo 2^bits (bits <= 64) is reducing modulo 2^bits. */
  lemma ModU64ThenPow2(x: int, bits: nat)
    requires bits <= 64
    ensures (x % U64Modulus) % Pow2(bits) == x % Pow2(bits)
  {
    Pow2Moduli();
    Pow2Add(bits, 64 - bits);
    ModOfMod(x, Pow2(bits), Pow2(64 - bits));
  }
}
