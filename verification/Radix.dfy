/** Positional numerals, least significant digit first. Limbs, little-endian integers and
    base-58 digits are all read through `Value`. */
module Radix {
  import opened Machine

  predicate AreDigits(base: nat, ds: seq<nat>) {
    forall i :: 0 <= i < |ds| ==> ds[i] < base
  }

  function Value(base: nat, ds: seq<nat>): nat {
    if ds == [] then 0 else ds[0] + base * Value(base, ds[1..])
  }

  /** The numeral of `n` without superfluous leading zeros. */
  function Digits(base: nat, n: nat): seq<nat>
    requires base >= 2
  {
    if n == 0 then [] else [n % base] + Digits(base, n / base)
  }

  /** No superfluous zero at the most significant end. */
  predicate Canonical(base: nat, ds: seq<nat>) {
    AreDigits(base, ds) && (ds != [] ==> ds[|ds| - 1] != 0)
  }

  lemma ScaleSum(b: int, v: int, p: int, w: int)
    ensures b * (v + p * w) == b * v + (b * p) * w
  {
  }

  lemma {:induction false} ValueConcat(base: nat, s: seq<nat>, t: seq<nat>)
    ensures Value(base, s + t) == Value(base, s) + Pow(base, |s|) * Value(base, t)
  {
    if s == [] {
      assert s + t == t;
    } else {
      ValueConcat(base, s[1..], t);
      assert (s + t)[1..] == s[1..] + t;
      ScaleSum(base, Value(base, s[1..]), Pow(base, |s| - 1), Value(base, t));
    }
  }

  lemma ValueSnoc(base: nat, s: seq<nat>, d: nat)
    ensures Value(base, s + [d]) == Value(base, s) + Pow(base, |s|) * d
    ensures Pow(base, |s| + 1) == Pow(base, |s|) * base
  {
    ValueConcat(base, s, [d]);
    PowAdd(base, |s|, 1);
    assert Value(base, [d]) == d;
  }

  lemma ScaledBound(base: nat, d: nat, v: nat, p: nat)
    requires d < base && v < p
    ensures d + base * v < base * p
  {
    MulMonotone(v + 1, p, base);
  }

  lemma {:induction false} ValueBound(base: nat, ds: seq<nat>)
    requires AreDigits(base, ds)
    ensures Value(base, ds) < Pow(base, |ds|)
  {
    if ds != [] {
      ValueBound(base, ds[1..]);
      ScaledBound(base, ds[0], Value(base, ds[1..]), Pow(base, |ds| - 1));
    }
  }

  lemma {:induction false} ValueInjective(base: nat, s: seq<nat>, t: seq<nat>)
    requires AreDigits(base, s) && AreDigits(base, t) && |s| == |t|
    requires Value(base, s) == Value(base, t)
    ensures s == t
  {
    if s != [] {
      DivModUnique(base, Value(base, s[1..]), s[0]);
      DivModUnique(base, Value(base, t[1..]), t[0]);
      ValueInjective(base, s[1..], t[1..]);
      assert s == [s[0]] + s[1..] && t == [t[0]] + t[1..];
    }
  }

  lemma {:induction false} ValueOfDigits(base: nat, n: nat)
    requires base >= 2
    ensures Value(base, Digits(base, n)) == n
    ensures Canonical(base, Digits(base, n))
  {
    if n != 0 {
      DivModIdentity(n, base);
      var ds := Digits(base, n / base);
      assert Digits(base, n) == [n % base] + ds;
      ValueOfDigits(base, n / base);
      CanonicalCons(base, n % base, ds);
    }
  }

  lemma CanonicalCons(base: nat, d: nat, ds: seq<nat>)
    requires d < base && Canonical(base, ds) && (ds == [] ==> d != 0)
    ensures Canonical(base, [d] + ds)
    ensures Value(base, [d] + ds) == d + base * Value(base, ds)
  {
    assert ([d] + ds)[1..] == ds;
  }

  lemma {:induction false} CanonicalValuePositive(base: nat, ds: seq<nat>)
    requires base >= 2 && Canonical(base, ds) && ds != []
    ensures Value(base, ds) > 0
  {
    if |ds| > 1 {
      CanonicalValuePositive(base, ds[1..]);
      assert base * Value(base, ds[1..]) >= base;
    }
  }

  lemma {:induction false} DigitsOfValue(base: nat, ds: seq<nat>)
    requires base >= 2 && Canonical(base, ds)
    ensures Digits(base, Value(base, ds)) == ds
  {
    if ds != [] {
      CanonicalValuePositive(base, ds);
      DivModUnique(base, Value(base, ds[1..]), ds[0]);
      DigitsOfValue(base, ds[1..]);
      assert ds == [ds[0]] + ds[1..];
    }
  }

  /** Little-endian image of `n` in `k` bytes. */
  function LeBytes(n: nat, k: nat): (b: bytes)
    ensures |b| == k
  {
    if k == 0 then [] else [n % 256] + LeBytes(n / 256, k - 1)
  }

  function LeValue(b: bytes): nat { Value(256, b) }

  lemma {:induction false} LeValueOfBytes(n: nat, k: nat)
    requires n < Pow(256, k)
    ensures LeValue(LeBytes(n, k)) == n
  {
    if k > 0 {
      LeValueOfBytes(n / 256, k - 1);
      assert LeBytes(n, k)[1..] == LeBytes(n / 256, k - 1);
    }
  }

  lemma {:induction false} LeBytesOfValue(b: bytes)
    ensures LeValue(b) < Pow(256, |b|)
    ensures LeBytes(LeValue(b), |b|) == b
  {
    ValueBound(256, b);
    LeValueOfBytes(LeValue(b), |b|);
    ValueInjective(256, LeBytes(LeValue(b), |b|), b);
  }

  /** The widths in use. */
  lemma BytePowers()
    ensures Pow(256, 2) == 0x1_0000 && Pow(256, 4) == TWO_32 && Pow(256, 8) == TWO_64
  {
    PowAdd(256, 4, 4);
    PowAdd(256, 2, 2);
    assert Pow(256, 2) == 256 * 256 by { assert Pow(256, 1) == 256 * Pow(256, 0); }
  }


  /** The number a numeral denotes when its most significant digit comes first. */
  function BigEndian(base: nat, ds: seq<nat>): nat {
    if ds == [] then 0 else BigEndian(base, ds[..|ds| - 1]) * base + ds[|ds| - 1]
  }
}
