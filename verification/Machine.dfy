/** The fixed-width integers of the Rust sources, and the operations on them that are
    not plain integer arithmetic: saturation, wrap-around and bitwise OR. */
module Machine {

  type byte = x: int | 0 <= x < 0x100
  type u32 = x: int | 0 <= x < 0x1_0000_0000
  type u64 = x: int | 0 <= x < 0x1_0000_0000_0000_0000
  type i32 = x: int | -0x8000_0000 <= x < 0x8000_0000
  type i64 = x: int | -0x8000_0000_0000_0000 <= x < 0x8000_0000_0000_0000
  type bytes = seq<byte>

  const TWO_32: int := 0x1_0000_0000
  const TWO_64: int := 0x1_0000_0000_0000_0000
  const U32_MAX: u32 := 0xffff_ffff
  const I64_MAX: i64 := 0x7fff_ffff_ffff_ffff
  const I64_MIN: i64 := -0x8000_0000_0000_0000

  /** A 32-byte hash, and a hash function about which nothing more is assumed. */
  type Digest = d: bytes | |d| == 32 witness seq(32, _ => 0)
  type Hasher = bytes -> Digest

  function ZeroDigest(): Digest { seq(32, _ => 0) }

  datatype Option<+T> = None | Some(value: T)

  datatype Result<+T, +E> = Ok(value: T) | Err(error: E)

  function Min(a: int, b: int): int { if a < b then a else b }

  function Max(a: int, b: int): int { if a < b then b else a }

  /** `i64::saturating_add` */
  function SatAdd(a: i64, b: i64): i64 {
    if a + b > I64_MAX then I64_MAX else if a + b < I64_MIN then I64_MIN else a + b
  }

  /** Two's complement wrap-around of an exact result to 64 bits. */
  function Wrap64(n: int): i64 {
    var m := n % TWO_64;
    if m > I64_MAX then m - TWO_64 else m
  }

  function Pow(b: nat, e: nat): (p: nat)
    ensures b > 0 ==> p > 0
  {
    if e == 0 then 1 else b * Pow(b, e - 1)
  }

  lemma {:induction false} PowAdd(b: nat, m: nat, n: nat)
    ensures Pow(b, m + n) == Pow(b, m) * Pow(b, n)
  {
    if m == 0 {
    } else {
      PowAdd(b, m - 1, n);
      MulAssociative(b, Pow(b, m - 1), Pow(b, n));
    }
  }

  lemma MulAssociative(x: int, y: int, z: int)
    ensures x * (y * z) == (x * y) * z
  {
  }

  lemma {:induction false} PowPow(b: nat, m: nat, n: nat)
    ensures Pow(Pow(b, m), n) == Pow(b, m * n)
  {
    if n == 0 {
    } else {
      PowPow(b, m, n - 1);
      PowAdd(b, m, m * (n - 1));
      assert m + m * (n - 1) == m * n;
    }
  }

  lemma {:induction false} PowMonotone(b: nat, m: nat, n: nat)
    requires b > 0 && m <= n
    ensures Pow(b, m) <= Pow(b, n)
  {
    if m < n {
      PowMonotone(b, m, n - 1);
      assert Pow(b, n - 1) <= b * Pow(b, n - 1);
    }
  }

  /** `x >> k` */
  function Shr(x: nat, k: nat): nat { x / Pow(2, k) }

  /** `x << k` on a 64-bit word. */
  function Shl64(x: nat, k: nat): u64 { (x * Pow(2, k)) % TWO_64 }

  /** Bitwise OR of two unsigned words. */
  function Or(a: nat, b: nat): nat {
    if a == 0 then b
    else if b == 0 then a
    else 2 * Or(a / 2, b / 2) + (if a % 2 == 1 || b % 2 == 1 then 1 else 0)
  }

  /** OR adds when the low `k` bits of one word are clear and the other has no more. */
  lemma {:induction false} OrDisjoint(a: nat, b: nat, k: nat)
    requires a % Pow(2, k) == 0 && b < Pow(2, k)
    ensures Or(a, b) == a + b
  {
    if a != 0 && b != 0 {
      if k > 0 {
        var p := Pow(2, k - 1);
        var q := a / (2 * p);
        assert a == 2 * p * q;
        assert a == 2 * (p * q);
        assert a / 2 == p * q;
        MultipleMod(p, q);
        OrDisjoint(a / 2, b / 2, k - 1);
      }
    }
  }

  lemma MultipleMod(p: nat, q: nat)
    requires p > 0
    ensures (p * q) % p == 0
  {
    DivModUnique(p, q, 0);
  }

  /** `q * d + r` with `r < d` has quotient `q` and remainder `r`. */
  lemma DivModUnique(d: nat, q: nat, r: nat)
    requires r < d
    ensures (d * q + r) / d == q && (d * q + r) % d == r
  {
    QuotientUnique(d, q, r, (d * q + r) / d, (d * q + r) % d);
  }

  lemma QuotientUnique(d: nat, q: nat, r: nat, q': nat, r': nat)
    requires r < d && r' < d && d * q + r == d * q' + r'
    ensures q == q' && r == r'
  {
    if q < q' {
      MulMonotone(q + 1, q', d);
    } else if q' < q {
      MulMonotone(q' + 1, q, d);
    }
  }

  lemma DivModIdentity(n: nat, d: nat)
    requires d > 0
    ensures n == d * (n / d) + n % d && n % d < d
    ensures d > 1 && n > 0 ==> n / d < n
  {
    if d > 1 && n > 0 && n / d >= n {
      MulMonotone(2, d, n / d);
    }
  }

  lemma MulRotate(a: int, b: int, c: int)
    ensures a * (b * c) == c * (a * b)
  {
  }

  lemma MulSwap(a: int, b: int, c: int, d: int)
    ensures (a * b) * (c * d) == (a * c) * (b * d)
  {
  }

  lemma MulMonotone(a: nat, b: nat, c: nat)
    requires a <= b
    ensures a * c <= b * c
  {
  }
}
