/** Wire-format primitives: CompactSize lengths, length-prefixed bytes, and a bounds-checked
    cursor. Parsers are specified on the bytes still to be read. */
module Wire {
  import opened Machine
  import opened Radix

  datatype ReadError = UnexpectedEnd | ScriptTooLong

  /** What a parser makes of the remaining input: a value and what is left, or an error. */
  datatype Parsed<+T> = Done(value: T, rest: bytes) | Fail(error: ReadError) {
    predicate IsFailure() { Fail? }

    function PropagateFailure<U>(): Parsed<U>
      requires Fail?
    {
      Fail(error)
    }

    function Extract(): (T, bytes)
      requires Done?
    {
      (value, rest)
    }
  }

  // ----- printing -----

  /** Two's complement image of a signed integer in `k` bytes. */
  function SignedBytes(v: int, k: nat): (b: bytes)
    ensures |b| == k
  {
    LeBytes(v % Pow(256, k), k)
  }

  function SignedValue(n: int, k: nat): int {
    if 2 * n < Pow(256, k) then n else n - Pow(256, k)
  }

  predicate FitsSigned(v: int, k: nat) {
    var m: int := Pow(256, k);
    -m <= 2 * v < m
  }

  function CompactSize(n: u64): (b: bytes)
    ensures 1 <= |b| <= 9
  {
    if n < 0xfd then [n]
    else if n <= 0xffff then [0xfd] + LeBytes(n, 2)
    else if n <= 0xffff_ffff then [0xfe] + LeBytes(n, 4)
    else [0xff] + LeBytes(n, 8)
  }

  function VarBytes(x: bytes): bytes
    requires |x| < TWO_64
  {
    CompactSize(|x|) + x
  }

  // ----- parsing -----

  function ParseBytes(b: bytes, n: nat): Parsed<bytes> {
    if |b| < n then Fail(UnexpectedEnd) else Done(b[..n], b[n..])
  }

  function ParseUint(b: bytes, k: nat): Parsed<nat> {
    var (x, rest) :- ParseBytes(b, k);
    Done(LeValue(x), rest)
  }

  function ParseSigned(b: bytes, k: nat): Parsed<int> {
    var (n, rest) :- ParseUint(b, k);
    Done(SignedValue(n, k), rest)
  }

  /** Width of the integer that follows a CompactSize tag. */
  function TagWidth(tag: byte): nat {
    if tag == 0xff then 8 else if tag == 0xfe then 4 else if tag == 0xfd then 2 else 0
  }

  function ParseCompactSize(b: bytes): Parsed<nat> {
    var (first, rest) :- ParseBytes(b, 1);
    if TagWidth(first[0]) == 0 then Done(first[0], rest) else ParseUint(rest, TagWidth(first[0]))
  }

  function ParseVarBytes(b: bytes): Parsed<bytes> {
    var (len, rest) :- ParseCompactSize(b);
    if len > |rest| then Fail(ScriptTooLong) else ParseBytes(rest, len)
  }

  // ----- parsing inverts printing -----

  lemma BytesRoundTrip(x: bytes, s: bytes)
    ensures ParseBytes(x + s, |x|) == Done(x, s)
  {
  }

  lemma UintRoundTrip(n: nat, k: nat, s: bytes)
    requires n < Pow(256, k)
    ensures ParseUint(LeBytes(n, k) + s, k) == Done(n, s)
  {
    BytesRoundTrip(LeBytes(n, k), s);
    LeValueOfBytes(n, k);
  }

  lemma SignedRoundTrip(v: int, k: nat, s: bytes)
    requires FitsSigned(v, k)
    ensures ParseSigned(SignedBytes(v, k) + s, k) == Done(v, s)
  {
    var m := Pow(256, k);
    assert v % m == if v >= 0 then v else v + m by {
      if v >= 0 { DivModUnique(m, 0, v); } else { NegativeMod(v, m); }
    }
    UintRoundTrip(v % m, k, s);
  }

  lemma NegativeMod(v: int, m: int)
    requires m > 0 && -m <= v < 0
    ensures v % m == v + m
  {
    QuotientRange(m, v / m, v % m);
  }

  lemma QuotientRange(m: int, q: int, r: int)
    requires 0 <= r < m
    ensures q <= -2 ==> m * q + r < -m
    ensures q >= 0 ==> m * q + r >= 0
  {
    if q <= -2 { MulMonotone(2, -q, m); }
    if q >= 0 { MulMonotone(0, q, m); }
  }

  lemma CompactSizeRoundTrip(n: u64, s: bytes)
    ensures ParseCompactSize(CompactSize(n) + s) == Done(n, s)
  {
    BytePowers();
    var b := CompactSize(n) + s;
    if n < 0xfd {
      assert b[..1] == [n] && b[1..] == s;
    } else {
      var k := TagWidth(b[0]);
      assert b[1..] == LeBytes(n, k) + s;
      UintRoundTrip(n, k, s);
    }
  }

  lemma VarBytesRoundTrip(x: bytes, s: bytes)
    requires |x| < TWO_64
    ensures ParseVarBytes(VarBytes(x) + s) == Done(x, s)
  {
    CompactSizeRoundTrip(|x|, x + s);
    assert VarBytes(x) + s == CompactSize(|x|) + (x + s);
    BytesRoundTrip(x, s);
  }

  // ----- a successful parse ignores what follows -----

  lemma BytesExtend(b: bytes, n: nat, s: bytes)
    requires n <= |b|
    ensures ParseBytes(b + s, n) == Done(b[..n], b[n..] + s)
  {
    assert (b + s)[..n] == b[..n] && (b + s)[n..] == b[n..] + s;
  }

  lemma UintExtend(b: bytes, k: nat, s: bytes)
    requires ParseUint(b, k).Done?
    ensures ParseUint(b + s, k) == Done(ParseUint(b, k).value, ParseUint(b, k).rest + s)
  {
    BytesExtend(b, k, s);
  }

  lemma CompactSizeExtend(b: bytes, s: bytes)
    requires ParseCompactSize(b).Done?
    ensures ParseCompactSize(b + s) == Done(ParseCompactSize(b).value, ParseCompactSize(b).rest + s)
  {
    BytesExtend(b, 1, s);
    if TagWidth(b[0]) != 0 {
      UintExtend(b[1..], TagWidth(b[0]), s);
    }
  }

  lemma VarBytesExtend(b: bytes, s: bytes)
    requires ParseVarBytes(b).Done?
    ensures ParseVarBytes(b + s) == Done(ParseVarBytes(b).value, ParseVarBytes(b).rest + s)
  {
    CompactSizeExtend(b, s);
    var len := ParseCompactSize(b);
    BytesExtend(len.rest, len.value, s);
  }

  // ----- the printed form is the shortest, and the only one of its length -----

  /** `rest` is a tail of `b`, and `e` is no longer than what came before it, which it equals
      if it is as long. */
  predicate Shortest(b: bytes, rest: bytes, e: bytes) {
    && |e| + |rest| <= |b| && b[|b| - |rest|..] == rest
    && (|e| + |rest| == |b| ==> b == e + rest)
  }

  lemma ShortestCompose(b: bytes, mid: bytes, rest: bytes, e: bytes, e': bytes)
    requires Shortest(b, mid, e) && Shortest(mid, rest, e')
    ensures Shortest(b, rest, e + e')
  {
    assert b[|b| - |rest|..] == b[|b| - |mid|..][|mid| - |rest|..];
    if |e| + |e'| + |rest| == |b| {
      assert b == (e + e') + rest;
    }
  }

  lemma BytesShortest(b: bytes, n: nat)
    requires n <= |b|
    ensures Shortest(b, b[n..], b[..n])
  {
  }

  lemma UintShortest(b: bytes, k: nat)
    requires ParseUint(b, k).Done?
    ensures ParseUint(b, k).value < Pow(256, k)
    ensures Shortest(b, ParseUint(b, k).rest, LeBytes(ParseUint(b, k).value, k))
  {
    LeBytesOfValue(b[..k]);
  }

  lemma SignedShortest(b: bytes, k: nat)
    requires ParseSigned(b, k).Done?
    ensures FitsSigned(ParseSigned(b, k).value, k)
    ensures Shortest(b, ParseSigned(b, k).rest, SignedBytes(ParseSigned(b, k).value, k))
  {
    UintShortest(b, k);
    SignedInverse(ParseUint(b, k).value, k);
  }

  lemma SignedInverse(n: nat, k: nat)
    requires n < Pow(256, k)
    ensures FitsSigned(SignedValue(n, k), k) && SignedValue(n, k) % Pow(256, k) == n
  {
    var m := Pow(256, k);
    if 2 * n < m { DivModUnique(m, 0, n); } else { NegativeMod(n - m, m); }
  }

  /** No tagged form of `n` is shorter than the canonical one, or as long and different. */
  lemma CompactSizeLeast(n: nat, tag: byte)
    requires TagWidth(tag) != 0 && n < Pow(256, TagWidth(tag))
    ensures n < TWO_64 && |CompactSize(n)| <= 1 + TagWidth(tag)
    ensures |CompactSize(n)| == 1 + TagWidth(tag) ==> CompactSize(n) == [tag] + LeBytes(n, TagWidth(tag))
  {
    BytePowers();
  }

  lemma CompactSizeShortest(b: bytes)
    requires ParseCompactSize(b).Done?
    ensures ParseCompactSize(b).value < TWO_64
    ensures Shortest(b, ParseCompactSize(b).rest, CompactSize(ParseCompactSize(b).value))
  {
    hide LeBytes, Pow;
    var k := TagWidth(b[0]);
    var n, rest := ParseCompactSize(b).value, ParseCompactSize(b).rest;
    BytesShortest(b, 1);
    assert b[..1] == [b[0]];
    if k != 0 {
      UintShortest(b[1..], k);
      CompactSizeLeast(n, b[0]);
      ShortestCompose(b, b[1..], rest, [b[0]], LeBytes(n, k));
    }
  }

  lemma VarBytesShortest(b: bytes)
    requires ParseVarBytes(b).Done?
    ensures |ParseVarBytes(b).value| < TWO_64
    ensures Shortest(b, ParseVarBytes(b).rest, VarBytes(ParseVarBytes(b).value))
  {
    CompactSizeShortest(b);
    var len := ParseCompactSize(b);
    BytesShortest(len.rest, len.value);
    ShortestCompose(b, len.rest, ParseVarBytes(b).rest, CompactSize(len.value), len.rest[..len.value]);
  }

  // ----- what the printed bytes are -----

  /** One byte below 0xfd; otherwise a tag for the width, and the length little-endian in it. */
  lemma CompactSizeLayout(n: u64)
    ensures var b := CompactSize(n);
            && (n < 0xfd ==> b == [n])
            && (0xfd <= n <= 0xffff ==> |b| == 3 && b[0] == 0xfd && LeValue(b[1..]) == n)
            && (0xffff < n <= 0xffff_ffff ==> |b| == 5 && b[0] == 0xfe && LeValue(b[1..]) == n)
            && (0xffff_ffff < n ==> |b| == 9 && b[0] == 0xff && LeValue(b[1..]) == n)
  {
    hide LeBytes, LeValue, Pow;
    BytePowers();
    if n >= 0xfd {
      var k := if n <= 0xffff then 2 else if n <= 0xffff_ffff then 4 else 8;
      LeValueOfBytes(n, k);
      assert CompactSize(n)[1..] == LeBytes(n, k);
    }
  }

  /** Two's complement: a negative integer is printed as its distance from the top. */
  lemma SignedBytesValue(v: int, k: nat)
    requires FitsSigned(v, k)
    ensures LeValue(SignedBytes(v, k)) == if v >= 0 then v else v + Pow(256, k)
  {
    var m := Pow(256, k);
    if v >= 0 { DivModUnique(m, 0, v); } else { NegativeMod(v, m); }
    LeValueOfBytes(v % m, k);
  }

  // ----- the cursor -----

  class Reader {
    const data: bytes
    var pos: nat

    predicate Valid()
      reads this
    {
      pos <= |data|
    }

    /** The bytes still to be read. */
    function Rest(): bytes
      reads this
      requires Valid()
    {
      data[pos..]
    }

    constructor (data: bytes)
      ensures Valid() && Rest() == data
    {
      this.data := data;
      pos := 0;
    }

    method Take(n: nat) returns (r: Result<bytes, ReadError>)
      requires Valid()
      modifies this
      ensures Valid()
      ensures match ParseBytes(old(Rest()), n)
              case Done(v, rest) => r == Ok(v) && Rest() == rest
              case Fail(e) => r == Err(e) && Rest() == old(Rest())
    {
      if |data| - pos < n {
        return Err(UnexpectedEnd);
      }
      assert data[pos..][..n] == data[pos..pos + n] && data[pos..][n..] == data[pos + n..];
      r := Ok(data[pos..pos + n]);
      pos := pos + n;
    }

    /** `read_u32`, `read_hash`'s integer siblings: `k` little-endian bytes. */
    method ReadUint(k: nat) returns (r: Result<nat, ReadError>)
      requires Valid()
      modifies this
      ensures Valid()
      ensures match ParseUint(old(Rest()), k)
              case Done(v, rest) => r == Ok(v) && Rest() == rest
              case Fail(e) => r == Err(e)
    {
      var x := Take(k);
      if x.Err? {
        return Err(x.error);
      }
      return Ok(LeValue(x.value));
    }

    method ReadSigned(k: nat) returns (r: Result<int, ReadError>)
      requires Valid()
      modifies this
      ensures Valid()
      ensures match ParseSigned(old(Rest()), k)
              case Done(v, rest) => r == Ok(v) && Rest() == rest
              case Fail(e) => r == Err(e)
    {
      var n := ReadUint(k);
      if n.Err? {
        return Err(n.error);
      }
      return Ok(SignedValue(n.value, k));
    }

    method ReadCompactSize() returns (r: Result<nat, ReadError>)
      requires Valid()
      modifies this
      ensures Valid()
      ensures match ParseCompactSize(old(Rest()))
              case Done(v, rest) => r == Ok(v) && Rest() == rest
              case Fail(e) => r == Err(e)
    {
      var first := Take(1);
      if first.Err? {
        return Err(first.error);
      }
      var tag := first.value[0];
      if tag == 0xff {
        r := ReadUint(8);
      } else if tag == 0xfe {
        r := ReadUint(4);
      } else if tag == 0xfd {
        r := ReadUint(2);
      } else {
        r := Ok(tag);
      }
    }

    method ReadVarBytes() returns (r: Result<bytes, ReadError>)
      requires Valid()
      modifies this
      ensures Valid()
      ensures match ParseVarBytes(old(Rest()))
              case Done(v, rest) => r == Ok(v) && Rest() == rest
              case Fail(e) => r == Err(e)
    {
      var len := ReadCompactSize();
      if len.Err? {
        return Err(len.error);
      }
      if len.value > |data| - pos {
        return Err(ScriptTooLong);
      }
      r := Take(len.value);
    }
  }
}
