/** The 256-bit target arithmetic: four 64-bit limbs, least significant first. Each loop is
    proved to compute the exact natural number, and to answer `None` on overflow only. */
module U256 {
  import opened Machine
  import opened Radix

  type Limbs = l: seq<u64> | |l| == 4 witness [0, 0, 0, 0]

  datatype U256 = U256(limbs: Limbs)

  datatype Ordering = Less | Equal | Greater

  const ZERO := U256([0, 0, 0, 0])

  /** 2^256 */
  const MODULUS: nat := 0x1_0000_0000_0000_0000_0000_0000_0000_0000_0000_0000_0000_0000_0000_0000_0000_0000

  function ToNat(x: U256): nat { Value(TWO_64, x.limbs) }

  function FromU64(v: u64): U256 { U256([v, 0, 0, 0]) }

  predicate IsZero(x: U256) { x.limbs == [0, 0, 0, 0] }

  lemma LimbPowers()
    ensures Pow(2, 64) == TWO_64 && Pow(2, 256) == MODULUS == Pow(TWO_64, 4)
  {
    assert Pow(2, 8) == 256;
    PowPow(2, 8, 8);
    BytePowers();
    PowPow(2, 64, 4);
    assert Pow(TWO_64, 4) == TWO_64 * (TWO_64 * (TWO_64 * (TWO_64 * 1)));
  }

  lemma ValueUnrolled(x: U256)
    ensures ToNat(x) == x.limbs[0] + TWO_64 * (x.limbs[1] + TWO_64 * (x.limbs[2] + TWO_64 * x.limbs[3]))
    ensures ToNat(x) < MODULUS
    ensures IsZero(x) <==> ToNat(x) == 0
  {
    var l: seq<nat> := x.limbs;
    assert l[3..] == [l[3]] && l[2..] == [l[2]] + l[3..] && l[1..] == [l[1]] + l[2..];
    assert Value(TWO_64, l[3..]) == l[3];
    assert Value(TWO_64, l[2..]) == l[2] + TWO_64 * l[3];
    assert Value(TWO_64, l[1..]) == l[1] + TWO_64 * (l[2] + TWO_64 * l[3]);
    assert Value(TWO_64, l) == l[0] + TWO_64 * (l[1] + TWO_64 * (l[2] + TWO_64 * l[3]));
  }

  /** Distinct limb arrays are distinct numbers. */
  lemma ToNatInjective(x: U256, y: U256)
    requires ToNat(x) == ToNat(y)
    ensures x == y
  {
    ValueInjective(TWO_64, x.limbs, y.limbs);
  }

  method FromLeBytes(b: Digest) returns (r: U256)
    ensures ToNat(r) == LeValue(b)
  {
    var limbs: seq<u64> := [0, 0, 0, 0];
    var i := 0;
    while i < 4
      invariant 0 <= i <= 4 && |limbs| == 4
      invariant Value(TWO_64, limbs[..i]) == LeValue(b[..8 * i])
    {
      LeBytesOfValue(b[8 * i..8 * i + 8]);
      BytePowers();
      limbs := limbs[i := LeValue(b[8 * i..8 * i + 8])];
      assert limbs[..i + 1] == limbs[..i] + [limbs[i]];
      assert b[..8 * (i + 1)] == b[..8 * i] + b[8 * i..8 * i + 8];
      ValueConcat(TWO_64, limbs[..i], [limbs[i]]);
      ValueConcat(256, b[..8 * i], b[8 * i..8 * i + 8]);
      PowPow(256, 8, i);
      i := i + 1;
    }
    assert limbs[..4] == limbs && b[..32] == b;
    r := U256(limbs);
  }

  // ----- shift -----

  lemma ProductOfSplit(p: nat, q: nat, hi: nat, rest: nat)
    ensures (q * hi + rest) * p == (p * q) * hi + p * rest
  {
  }

  lemma SplitProductAt(src: nat, p: nat, q: nat, w: nat, hi: nat, rest: nat)
    requires p > 0 && p * q == w && src == q * hi + rest && rest < q && src < w
    ensures src * p == w * hi + p * rest && (src * p) % w == p * rest
    ensures (p * rest) % p == 0 && hi < p
  {
    ProductOfSplit(p, q, hi, rest);
    MulMonotone(rest + 1, q, p);
    DivModUnique(w, hi, p * rest);
    MultipleMod(p, rest);
    if hi >= p { MulMonotone(p, hi, q); }
  }

  lemma SplitProduct(src: nat, p: nat, q: nat, w: nat)
    requires p > 0 && q > 0 && p * q == w && src < w
    ensures (src * p) % w + w * (src / q) == src * p
    ensures ((src * p) % w) % p == 0 && src / q < p
  {
    DivModIdentity(src, q);
    SplitProductAt(src, p, q, w, src / q, src % q);
  }

  /** The part of a shifted limb that spills into the next one. */
  function Spill(src: u64, s: nat): u64
    requires s < 64
  {
    if s == 0 then 0 else SpillFactor(src, s); Shr(src, 64 - s)
  }

  lemma SpillFactor(src: u64, s: nat)
    requires 0 < s < 64
    ensures Shl64(src, s) + TWO_64 * Shr(src, 64 - s) == src * Pow(2, s)
    ensures Shl64(src, s) % Pow(2, s) == 0 && Shr(src, 64 - s) < Pow(2, s) <= TWO_64
  {
    LimbPowers();
    PowAdd(2, s, 64 - s);
    PowMonotone(2, s, 64);
    SplitProduct(src, Pow(2, s), Pow(2, 64 - s), TWO_64);
  }

  /** One limb shifted left by `s` bits: the part that stays and the part that spills. */
  lemma SplitShift(src: u64, s: nat)
    requires s < 64
    ensures Shl64(src, s) + TWO_64 * Spill(src, s) == src * Pow(2, s)
    ensures Shl64(src, s) % Pow(2, s) == 0 && Spill(src, s) < Pow(2, s)
  {
    if s == 0 {
      assert Pow(2, 0) == 1 && src * 1 == src;
    } else {
      SpillFactor(src, s);
    }
  }

  lemma ShiftFactors(bits: nat)
    ensures Pow(2, bits) == Pow(TWO_64, bits / 64) * Pow(2, bits % 64)
  {
    LimbPowers();
    PowAdd(2, 64 * (bits / 64), bits % 64);
    PowPow(2, 64, bits / 64);
  }

  lemma FirstDigitBound(s: seq<nat>)
    requires s != []
    ensures Value(TWO_64, s) >= s[0]
  {
    assert TWO_64 * Value(TWO_64, s[1..]) >= 0;
  }

  /** Limb `i` alone is a lower bound for the number. */
  lemma LimbBound(x: U256, i: nat)
    requires i < 4
    ensures ToNat(x) >= Pow(TWO_64, i) * x.limbs[i]
  {
    hide Value, Pow;
    var l: seq<nat> := x.limbs;
    ValueConcat(TWO_64, l[..i], l[i..]);
    assert l == l[..i] + l[i..];
    FirstDigitBound(l[i..]);
    MulMonotone(l[i], Value(TWO_64, l[i..]), Pow(TWO_64, i));
  }

  /** A limb `i` whose shifted image reaches past the top limb makes the product too big. */
  lemma ShiftOverflows(x: U256, bits: nat, i: nat)
    requires i < 4 && bits < 256
    requires || (i + bits / 64 > 3 && x.limbs[i] != 0)
             || (i + bits / 64 == 3 && x.limbs[i] * Pow(2, bits % 64) >= TWO_64)
    ensures ToNat(x) * Pow(2, bits) >= MODULUS
  {
    var w, p, ls, src := Pow(TWO_64, i), Pow(2, bits % 64), bits / 64, x.limbs[i];
    LimbBound(x, i);
    MulMonotone(w * src, ToNat(x), Pow(2, bits));
    calc {
      (w * src) * Pow(2, bits);
      { ShiftFactors(bits); }
      (w * src) * (Pow(TWO_64, ls) * p);
      { MulSwap(w, src, Pow(TWO_64, ls), p); }
      (w * Pow(TWO_64, ls)) * (src * p);
      { PowAdd(TWO_64, i, ls); }
      Pow(TWO_64, i + ls) * (src * p);
    }
    ShiftedTooFar(i + ls, src, p);
  }

  lemma ShiftedTooFar(e: nat, src: nat, p: nat)
    requires p > 0
    requires (e > 3 && src > 0) || (e == 3 && src * p >= TWO_64)
    ensures Pow(TWO_64, e) * (src * p) >= MODULUS
  {
    LimbPowers();
    if e > 3 {
      PowMonotone(TWO_64, 4, e);
      MulMonotone(1, src, p);
      MulMonotone(1, src * p, Pow(TWO_64, e));
    } else {
      PowAdd(TWO_64, 3, 1);
      MulMonotone(TWO_64, src * p, Pow(TWO_64, 3));
    }
  }

  /** A limb whose low bits are clear has room for the spill. */
  lemma SpillFits(a: u64, hi: nat, s: nat)
    requires s < 64 && a % Pow(2, s) == 0 && hi < Pow(2, s)
    ensures a + hi < TWO_64
  {
    LimbPowers();
    PowAdd(2, s, 64 - s);
    DivModIdentity(a, Pow(2, s));
    MultipleHasRoom(Pow(2, s), Pow(2, 64 - s), a / Pow(2, s), hi);
  }

  lemma MultipleHasRoom(p: nat, q: nat, k: nat, hi: nat)
    requires p * k < p * q && hi < p
    ensures p * k + hi < p * q
  {
    if k >= q {
      MulMonotone(q, k, p);
    } else {
      MulMonotone(k + 1, q, p);
    }
  }

  /** The limbs `i..` of `x` have been shifted into `out`. */
  predicate Shifted(x: U256, bits: nat, i: nat, out: seq<u64>)
    requires bits < 256 && i <= 4 && |out| == 4
  {
    var d := i + bits / 64;
    && (forall j :: 0 <= j < 4 && j < d ==> out[j] == 0)
    && (d < 4 ==> out[d] % Pow(2, bits % 64) == 0)
    && (d <= 4 ==> Value(TWO_64, out[d..]) == Pow(2, bits % 64) * Value(TWO_64, x.limbs[i..]))
    && (d > 4 ==> Value(TWO_64, x.limbs[i..]) == 0)
  }

  lemma ShiftZeroLimb(x: U256, bits: nat, i: nat, out: seq<u64>)
    requires bits < 256 && i < 4 && |out| == 4
    requires Shifted(x, bits, i + 1, out) && x.limbs[i] == 0
    ensures Shifted(x, bits, i, out)
  {
    var d, p := i + bits / 64, Pow(2, bits % 64);
    assert x.limbs[i..][1..] == x.limbs[i + 1..];
    if d < 4 {
      assert out[d..][1..] == out[d + 1..];
      Distribute(p, 0, TWO_64, Value(TWO_64, x.limbs[i + 1..]));
    }
  }

  lemma ShiftNonzeroLimb(x: U256, bits: nat, i: nat, out: seq<u64>, lo: u64, hi: u64, out': seq<u64>)
    requires bits < 256 && i < 4 && |out| == 4 == |out'|
    requires Shifted(x, bits, i + 1, out) && i + bits / 64 < 4
    requires lo + TWO_64 * hi == x.limbs[i] * Pow(2, bits % 64) && lo % Pow(2, bits % 64) == 0
    requires i + bits / 64 == 3 ==> hi == 0
    requires var d := i + bits / 64;
             && (forall j :: 0 <= j < 4 && j != d && j != d + 1 ==> out'[j] == out[j])
             && out'[d] == lo && (d < 3 ==> out'[d + 1] == out[d + 1] + hi)
    ensures Shifted(x, bits, i, out')
  {
    var d, p := i + bits / 64, Pow(2, bits % 64);
    var rest := Value(TWO_64, x.limbs[i + 1..]);
    assert x.limbs[i..][1..] == x.limbs[i + 1..];
    assert out'[d..][1..] == out'[d + 1..];
    if d < 3 {
      assert out'[d + 1..][1..] == out[d + 1..][1..];
    }
    assert Value(TWO_64, out'[d + 1..]) == p * rest + hi;
    Distribute(p, x.limbs[i], TWO_64, rest);
  }

  lemma Distribute(p: nat, src: nat, w: nat, rest: nat)
    ensures p * (src + w * rest) == src * p + w * (p * rest)
  {
  }

  lemma ShiftDone(x: U256, bits: nat, out: seq<u64>)
    requires bits < 256 && |out| == 4 && Shifted(x, bits, 0, out)
    ensures Value(TWO_64, out) == ToNat(x) * Pow(2, bits)
  {
    var ls, p := bits / 64, Pow(2, bits % 64);
    assert out == out[..ls] + out[ls..];
    ValueConcat(TWO_64, out[..ls], out[ls..]);
    ZeroValue(out[..ls]);
    ShiftFactors(bits);
    assert x.limbs[0..] == x.limbs;
    MulRotate(Pow(TWO_64, ls), p, ToNat(x));
  }

  lemma {:induction false} ZeroValue(s: seq<nat>)
    requires forall j :: 0 <= j < |s| ==> s[j] == 0
    ensures Value(TWO_64, s) == 0
  {
    if s != [] {
      ZeroValue(s[1..]);
    }
  }

  method CheckedShl(x: U256, bits: u32) returns (r: Option<U256>)
    ensures r.Some? <==> ToNat(x) * Pow(2, bits) < MODULUS
    ensures r.Some? ==> ToNat(r.value) == ToNat(x) * Pow(2, bits)
  {
    if bits >= 256 {
      ShiftAllOut(x, bits);
      return if IsZero(x) then Some(ZERO) else None;
    }
    var limbShift := bits / 64;
    var bitShift := bits % 64;
    var out: seq<u64> := [0, 0, 0, 0];
    var i := 4;
    while i > 0
      invariant 0 <= i <= 4 && |out| == 4
      invariant Shifted(x, bits, i, out)
    {
      i := i - 1;
      var src := x.limbs[i];
      if src == 0 {
        ShiftZeroLimb(x, bits, i, out);
        continue;
      }
      var dst := i + limbShift;
      var hi := Spill(src, bitShift);
      var lo := Shl64(src, bitShift);
      SplitShift(src, bitShift);
      if dst > 3 || (hi != 0 && dst + 1 > 3) {
        ShiftOverflows(x, bits, i);
        return None;
      }
      ghost var before := out;
      out := out[dst := Or(out[dst], lo)];
      if hi != 0 {
        OrDisjoint(out[dst + 1], hi, bitShift);
        SpillFits(out[dst + 1], hi, bitShift);
        out := out[dst + 1 := Or(out[dst + 1], hi)];
      }
      ShiftNonzeroLimb(x, bits, i, before, lo, hi, out);
    }
    ShiftDone(x, bits, out);
    r := Some(U256(out));
    ValueUnrolled(r.value);
  }

  lemma ShiftAllOut(x: U256, bits: nat)
    requires bits >= 256
    ensures IsZero(x) ==> ToNat(x) * Pow(2, bits) == 0 == ToNat(ZERO)
    ensures !IsZero(x) ==> ToNat(x) * Pow(2, bits) >= MODULUS
  {
    ValueUnrolled(x);
    LimbPowers();
    PowMonotone(2, 256, bits);
    if !IsZero(x) { MulMonotone(1, ToNat(x), Pow(2, bits)); }
  }

  // ----- multiplication -----

  /** The 128-bit product of two words and a carry word does not overflow. */
  lemma ProductFits(a: u64, b: u64, carry: u64)
    ensures 0 <= a * b + carry < TWO_64 * TWO_64
  {
    MulMonotone(a, TWO_64 - 1, b);
    MulMonotone(b, TWO_64 - 1, TWO_64 - 1);
  }

  lemma MulLimb(value: nat, w: nat, carry: nat, done: nat, limb: nat, rhs: nat, word: nat, carry': nat)
    requires value + w * carry == done * rhs
    requires limb * rhs + carry == word + TWO_64 * carry'
    ensures (value + w * word) + (w * TWO_64) * carry' == (done + w * limb) * rhs
  {
    calc {
      (value + w * word) + (w * TWO_64) * carry';
      value + w * (word + TWO_64 * carry');
      value + w * (limb * rhs + carry);
      (value + w * carry) + (w * limb) * rhs;
      done * rhs + (w * limb) * rhs;
    }
  }

  /** The low `i` limbs of the product are out, and `carry` is what remains. */
  predicate Multiplied(x: U256, rhs: u64, i: nat, out: seq<u64>, carry: u64)
    requires i <= 4 == |out|
  {
    Value(TWO_64, out[..i]) + Pow(TWO_64, i) * carry == Value(TWO_64, x.limbs[..i]) * rhs
  }

  lemma MultiplyStep(x: U256, rhs: u64, i: nat, out: seq<u64>, carry: u64, word: u64, carry': u64)
    requires i < 4 == |out| && Multiplied(x, rhs, i, out, carry)
    requires x.limbs[i] * rhs + carry == word + TWO_64 * carry'
    ensures Multiplied(x, rhs, i + 1, out[i := word], carry')
  {
    var out' := out[i := word];
    assert x.limbs[..i + 1] == x.limbs[..i] + [x.limbs[i]];
    assert out'[..i + 1] == out[..i] + [word];
    ValueSnoc(TWO_64, x.limbs[..i], x.limbs[i]);
    ValueSnoc(TWO_64, out[..i], word);
    MulLimb(Value(TWO_64, out[..i]), Pow(TWO_64, i), carry, Value(TWO_64, x.limbs[..i]), x.limbs[i], rhs, word, carry');
  }

  lemma MultiplyDone(x: U256, rhs: u64, out: seq<u64>, carry: u64)
    requires |out| == 4 && Multiplied(x, rhs, 4, out, carry)
    ensures carry == 0 ==> ToNat(x) * rhs == ToNat(U256(out)) < MODULUS
    ensures carry > 0 ==> ToNat(x) * rhs >= MODULUS
  {
    LimbPowers();
    assert out[..4] == out && x.limbs[..4] == x.limbs;
    ValueUnrolled(U256(out));
  }

  method CheckedMulU64(x: U256, rhs: u64) returns (r: Option<U256>)
    ensures r.Some? <==> ToNat(x) * rhs < MODULUS
    ensures r.Some? ==> ToNat(r.value) == ToNat(x) * rhs
  {
    ValueUnrolled(x);
    if rhs == 0 || IsZero(x) {
      return Some(ZERO);
    }
    var out: seq<u64> := [0, 0, 0, 0];
    var carry: u64 := 0;
    var i := 0;
    while i < 4
      invariant 0 <= i <= 4 && |out| == 4
      invariant Multiplied(x, rhs, i, out, carry)
    {
      var prod := x.limbs[i] * rhs + carry;
      ProductFits(x.limbs[i], rhs, carry);
      assert prod / TWO_64 < TWO_64 && prod == prod % TWO_64 + TWO_64 * (prod / TWO_64);
      MultiplyStep(x, rhs, i, out, carry, prod % TWO_64, prod / TWO_64);
      out := out[i := prod % TWO_64];
      carry := prod / TWO_64;
      i := i + 1;
    }
    MultiplyDone(x, rhs, out, carry);
    return if carry != 0 then None else Some(U256(out));
  }

  // ----- comparison -----

  lemma {:induction false} TopLimbDecides(a: seq<u64>, b: seq<u64>, i: nat)
    requires |a| == |b| && i < |a| && a[i] < b[i] && a[i + 1..] == b[i + 1..]
    ensures Value(TWO_64, a) < Value(TWO_64, b)
  {
    var w := Pow(TWO_64, i);
    assert a == a[..i] + ([a[i]] + a[i + 1..]) && b == b[..i] + ([b[i]] + b[i + 1..]);
    ValueConcat(TWO_64, a[..i], [a[i]] + a[i + 1..]);
    ValueConcat(TWO_64, b[..i], [b[i]] + b[i + 1..]);
    ValueBound(TWO_64, a[..i]);
    var u, v := Value(TWO_64, [a[i]] + a[i + 1..]), Value(TWO_64, [b[i]] + b[i + 1..]);
    assert u + 1 <= v by {
      assert ([a[i]] + a[i + 1..])[1..] == a[i + 1..] && ([b[i]] + b[i + 1..])[1..] == b[i + 1..];
    }
    HighBlockDecides(Value(TWO_64, a[..i]), Value(TWO_64, b[..i]), w, u, v);
  }

  lemma HighBlockDecides(low: nat, low': nat, w: nat, u: nat, v: nat)
    requires low < w && u < v
    ensures low + w * u < low' + w * v
  {
    MulMonotone(u + 1, v, w);
  }

  /** `Ord::cmp`: most significant limb first. */
  method Compare(x: U256, y: U256) returns (o: Ordering)
    ensures o == if ToNat(x) < ToNat(y) then Less else if ToNat(x) == ToNat(y) then Equal else Greater
  {
    var i := 4;
    while i > 0
      invariant 0 <= i <= 4 && x.limbs[i..] == y.limbs[i..]
    {
      i := i - 1;
      if x.limbs[i] < y.limbs[i] {
        TopLimbDecides(x.limbs, y.limbs, i);
        return Less;
      } else if x.limbs[i] > y.limbs[i] {
        TopLimbDecides(y.limbs, x.limbs, i);
        return Greater;
      }
      assert x.limbs[i..] == [x.limbs[i]] + x.limbs[i + 1..];
      assert y.limbs[i..] == [y.limbs[i]] + y.limbs[i + 1..];
    }
    assert x.limbs[0..] == x.limbs && y.limbs[0..] == y.limbs;
    return Equal;
  }

  // ----- compact targets -----

  /** The exact integer part of `mantissa * 256^(size - 3)`. */
  function CompactValue(compact: u32): nat {
    var size, mantissa := compact / 0x100_0000, compact % 0x80_0000;
    if size <= 3 then mantissa / Pow(256, 3 - size) else mantissa * Pow(256, size - 3)
  }

  /** The target a compact value denotes, when 256 bits can hold it. */
  function CompactTarget(compact: u32): Option<nat> {
    if CompactValue(compact) < MODULUS then Some(CompactValue(compact)) else None
  }

  /** The top byte is the size in bytes, the next bit a sign that is not looked at, the low 23 bits the
      leading digits of the target. */
  lemma CompactReads(compact: u32, size: nat, negative: bool, mantissa: nat)
    requires size < 0x100 && mantissa < 0x80_0000
    requires compact == size * 0x100_0000 + (if negative then 0x80_0000 else 0) + mantissa
    ensures CompactValue(compact) == if size <= 3 then mantissa / Pow(256, 3 - size) else mantissa * Pow(256, size - 3)
  {
    hide Pow;
    assert compact / 0x100_0000 == size && compact % 0x80_0000 == mantissa;
  }

  method SetCompact(compact: u32) returns (r: Option<U256>)
    ensures r.Some? <==> CompactTarget(compact).Some?
    ensures r.Some? ==> CompactTarget(compact) == Some(ToNat(r.value))
  {
    var size := compact / 0x100_0000;
    var word := compact % 0x80_0000;
    assert Pow(2, 8) == 256;
    if size <= 3 {
      PowPow(2, 8, 3 - size);
      word := Shr(word, 8 * (3 - size));
      DivModIdentity(compact % 0x80_0000, Pow(256, 3 - size));
      MulMonotone(1, Pow(256, 3 - size), word);
      ValueUnrolled(FromU64(word));
      r := Some(FromU64(word));
    } else {
      PowPow(2, 8, size - 3);
      ValueUnrolled(FromU64(word));
      r := CheckedShl(FromU64(word), 8 * (size - 3));
    }
  }
}
