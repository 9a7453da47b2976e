/** Base 58: the two in-place conversion loops, and the proof that they invert each other on
    every byte string and on every string over the alphabet. */
module Base58 {
  import opened Machine
  import opened Radix

  const DIGITS: string := "123456789"
  const UPPER: string := "ABCDEFGHJKLMNPQRSTUVWXYZ"
  const LOWER: string := "abcdefghijkmnopqrstuvwxyz"
  const ALPHABET: string := DIGITS + UPPER + LOWER

  datatype Base58Error = InvalidCharacter

  // ----- changing the base of a big-endian numeral that keeps its leading zeros -----

  function Reverse(s: seq<nat>): (r: seq<nat>)
    ensures |r| == |s|
  {
    seq(|s|, i requires 0 <= i < |s| => s[|s| - 1 - i])
  }

  function Zeros(n: nat): (z: seq<nat>)
    ensures |z| == n
  {
    seq(n, _ => 0)
  }

  function LeadingZeros(ds: seq<nat>): (k: nat)
    ensures k <= |ds|
  {
    if ds != [] && ds[0] == 0 then 1 + LeadingZeros(ds[1..]) else 0
  }

  function Rebase(from: nat, into: nat, ds: seq<nat>): seq<nat>
    requires into >= 2
  {
    Zeros(LeadingZeros(ds)) + Reverse(Digits(into, Value(from, Reverse(ds))))
  }

  lemma {:induction false} LeadingZerosAre(ds: seq<nat>)
    ensures var k := LeadingZeros(ds);
            (forall i :: 0 <= i < k ==> ds[i] == 0) && (k < |ds| ==> ds[k] != 0)
  {
    if ds != [] && ds[0] == 0 {
      var t, k := ds[1..], LeadingZeros(ds);
      LeadingZerosAre(t);
      assert forall i :: 1 <= i < k ==> ds[i] == t[i - 1];
      assert k < |ds| ==> ds[k] == t[k - 1];
    }
  }

  lemma LeadingZerosSplit(ds: seq<nat>)
    ensures var k := LeadingZeros(ds);
            ds == Zeros(k) + ds[k..] && (k < |ds| ==> ds[k] != 0)
  {
    hide LeadingZeros, Zeros;
    LeadingZerosAre(ds);
    ZerosInFront(ds, LeadingZeros(ds));
  }

  lemma ZerosInFront(ds: seq<nat>, k: nat)
    requires k <= |ds| && forall i :: 0 <= i < k ==> ds[i] == 0
    ensures ds == Zeros(k) + ds[k..]
  {
    assert ds[..k] == Zeros(k);
    assert ds == ds[..k] + ds[k..];
  }

  lemma {:induction false} LeadingZerosOf(k: nat, t: seq<nat>)
    requires t == [] || t[0] != 0
    ensures LeadingZeros(Zeros(k) + t) == k
  {
    if k > 0 {
      assert (Zeros(k) + t)[1..] == Zeros(k - 1) + t;
      LeadingZerosOf(k - 1, t);
    } else {
      assert Zeros(0) + t == t;
    }
  }

  lemma {:induction false} ZerosHaveNoValue(base: nat, k: nat)
    ensures Value(base, Zeros(k)) == 0
  {
    if k > 0 {
      assert Zeros(k)[1..] == Zeros(k - 1);
      ZerosHaveNoValue(base, k - 1);
    }
  }

  /** Leading zeros do not count towards the number. */
  lemma ValueIgnoresLeadingZeros(base: nat, k: nat, t: seq<nat>)
    ensures Value(base, Reverse(Zeros(k) + t)) == Value(base, Reverse(t))
  {
    assert Reverse(Zeros(k) + t) == Reverse(t) + Zeros(k);
    ValueConcat(base, Reverse(t), Zeros(k));
    ZerosHaveNoValue(base, k);
  }

  lemma RebaseSplit(from: nat, into: nat, k: nat, t: seq<nat>)
    requires into >= 2 && (t == [] || t[0] != 0)
    ensures Rebase(from, into, Zeros(k) + t) == Zeros(k) + Reverse(Digits(into, Value(from, Reverse(t))))
  {
    LeadingZerosOf(k, t);
    ValueIgnoresLeadingZeros(from, k, t);
  }

  lemma ReverseReverse(s: seq<nat>)
    ensures Reverse(Reverse(s)) == s
  {
  }

  lemma ReverseCanonical(base: nat, t: seq<nat>)
    ensures AreDigits(base, Reverse(t)) <==> AreDigits(base, t)
    ensures Canonical(base, Reverse(t)) <==> AreDigits(base, t) && (t == [] || t[0] != 0)
  {
    assert AreDigits(base, Reverse(t)) ==> AreDigits(base, t) by {
      forall i | AreDigits(base, Reverse(t)) && 0 <= i < |t| ensures t[i] < base {
        assert Reverse(t)[|t| - 1 - i] == t[i];
      }
    }
  }

  lemma PaddedDigits(base: nat, k: nat, t: seq<nat>)
    requires base > 0 && AreDigits(base, t)
    ensures AreDigits(base, Zeros(k) + t)
  {
  }

  lemma RebaseSplitInverse(from: nat, into: nat, k: nat, t: seq<nat>)
    requires from >= 2 && into >= 2 && Canonical(from, Reverse(t))
    ensures AreDigits(into, Rebase(from, into, Zeros(k) + t))
    ensures Rebase(into, from, Rebase(from, into, Zeros(k) + t)) == Zeros(k) + t
  {
    hide Value, Digits, Zeros, Reverse, Rebase, LeadingZeros;
    var n := Value(from, Reverse(t));
    var u := Reverse(Digits(into, n));
    ReverseCanonical(from, t);
    RebaseSplit(from, into, k, t);
    ValueOfDigits(into, n);
    ReverseReverse(Digits(into, n));
    ReverseCanonical(into, u);
    PaddedDigits(into, k, u);
    RebaseSplit(into, from, k, u);
    DigitsOfValue(from, Reverse(t));
    ReverseReverse(t);
  }

  lemma RebaseInverse(from: nat, into: nat, ds: seq<nat>)
    requires from >= 2 && into >= 2 && AreDigits(from, ds)
    ensures AreDigits(into, Rebase(from, into, ds))
    ensures Rebase(into, from, Rebase(from, into, ds)) == ds
  {
    LeadingZerosSplit(ds);
    ReverseCanonical(from, ds[LeadingZeros(ds)..]);
    RebaseSplitInverse(from, into, LeadingZeros(ds), ds[LeadingZeros(ds)..]);
  }

  // ----- the alphabet -----

  function Position(s: string, c: char): (p: Option<nat>)
    ensures p.Some? ==> p.value < |s| && s[p.value] == c && c !in s[..p.value]
    ensures p.None? ==> c !in s
  {
    if s == [] then None
    else if s[0] == c then Some(0)
    else match Position(s[1..], c)
      case None => None
      case Some(p) => assert s[..p + 1] == [s[0]] + s[1..][..p]; Some(p + 1)
  }

  /** The symbols ascend: the alphabet is ASCII order without `0`, `I`, `O` and `l`. */
  function SymbolCode(d: nat): nat {
    if d < 9 then 49 + d
    else if d < 33 then 65 + (d - 9) + (if d < 17 then 0 else if d < 22 then 1 else 2)
    else 97 + (d - 33) + (if d < 44 then 0 else 1)
  }

  lemma DigitCode(d: nat)
    requires d < 9
    ensures DIGITS[d] as int == SymbolCode(d)
  {
  }

  lemma UpperCode(d: nat)
    requires 9 <= d < 33
    ensures UPPER[d - 9] as int == SymbolCode(d)
  {
  }

  lemma LowerCode(d: nat)
    requires 33 <= d < 58
    ensures LOWER[d - 33] as int == SymbolCode(d)
  {
  }

  lemma ConcatAt(s: string, t: string, u: string, d: nat)
    requires d < |s| + |t| + |u|
    ensures (s + t + u)[d] == if d < |s| then s[d] else if d < |s| + |t| then t[d - |s|] else u[d - |s| - |t|]
  {
  }

  lemma AlphabetCode(d: nat)
    requires d < 58
    ensures ALPHABET[d] as int == SymbolCode(d)
  {
    ConcatAt(DIGITS, UPPER, LOWER, d);
    if d < 9 {
      DigitCode(d);
    } else if d < 33 {
      UpperCode(d);
    } else {
      LowerCode(d);
    }
  }

  lemma AlphabetInjective(i: nat, j: nat)
    requires i < 58 && j < 58 && ALPHABET[i] == ALPHABET[j]
    ensures i == j
  {
    AlphabetCode(i);
    AlphabetCode(j);
  }

  lemma PositionOf(d: nat)
    requires d < 58
    ensures Position(ALPHABET, ALPHABET[d]) == Some(d)
  {
    var p := Position(ALPHABET, ALPHABET[d]);
    assert ALPHABET[d] in ALPHABET;
    AlphabetInjective(p.value, d);
  }

  predicate IsBase58(s: string) { forall i :: 0 <= i < |s| ==> Position(ALPHABET, s[i]).Some? }

  function Chars(ds: seq<nat>): (s: string)
    requires AreDigits(58, ds)
    ensures |s| == |ds|
  {
    seq(|ds|, i requires 0 <= i < |ds| => ALPHABET[ds[i]])
  }

  function Positions(s: string): (ds: seq<nat>)
    requires IsBase58(s)
    ensures |ds| == |s| && AreDigits(58, ds)
  {
    seq(|s|, i requires 0 <= i < |s| => Position(ALPHABET, s[i]).value)
  }

  lemma CharsOfPositions(s: string)
    requires IsBase58(s)
    ensures Chars(Positions(s)) == s
  {
  }

  lemma PositionsOfChars(ds: seq<nat>)
    requires AreDigits(58, ds)
    ensures IsBase58(Chars(ds)) && Positions(Chars(ds)) == ds
  {
    forall i | 0 <= i < |ds| ensures Position(ALPHABET, Chars(ds)[i]) == Some(ds[i]) {
      PositionOf(ds[i]);
    }
  }

  // ----- the codec -----

  function Encode(x: bytes): string {
    RebaseInverse(256, 58, x);
    Chars(Rebase(256, 58, x))
  }

  function Decode(s: string): Result<bytes, Base58Error> {
    if IsBase58(s) then
      RebaseInverse(58, 256, Positions(s));
      Ok(Rebase(58, 256, Positions(s)))
    else Err(InvalidCharacter)
  }

  /** Decoding answers `x` for the encoding of `x` and for no other string. */
  lemma DecodeIffEncode(s: string, x: bytes)
    ensures Decode(s) == Ok(x) <==> s == Encode(x)
  {
    RebaseInverse(256, 58, x);
    PositionsOfChars(Rebase(256, 58, x));
    if IsBase58(s) {
      RebaseInverse(58, 256, Positions(s));
      CharsOfPositions(s);
    }
  }

  /** Each character of an encoding is a symbol of the alphabet. */
  lemma EncodedSymbol(x: bytes, i: nat)
    requires i < |Encode(x)|
    ensures exists d: nat :: d < 58 && Encode(x)[i] == ALPHABET[d] && ALPHABET[d] as int == SymbolCode(d)
  {
    RebaseInverse(256, 58, x);
    var d := Rebase(256, 58, x)[i];
    AlphabetCode(d);
  }

  /** Every string over the alphabet is the encoding of some bytes. */
  lemma EncodeOntoAlphabet(s: string)
    ensures IsBase58(s) <==> exists x: bytes :: Encode(x) == s
  {
    if IsBase58(s) {
      DecodeIffEncode(s, Decode(s).value);
    }
    forall x: bytes | Encode(x) == s ensures IsBase58(s) {
      DecodeIffEncode(s, x);
    }
  }

  // ----- what an encoding denotes -----

  lemma {:induction false} BigEndianIsValue(base: nat, ds: seq<nat>)
    ensures BigEndian(base, ds) == Value(base, Reverse(ds))
  {
    if ds != [] {
      var k := |ds| - 1;
      BigEndianIsValue(base, ds[..k]);
      assert Reverse(ds) == [ds[k]] + Reverse(ds[..k]);
      assert ([ds[k]] + Reverse(ds[..k]))[1..] == Reverse(ds[..k]);
    }
  }

  lemma RebaseMeans(from: nat, into: nat, ds: seq<nat>)
    requires into >= 2
    ensures BigEndian(into, Rebase(from, into, ds)) == BigEndian(from, ds)
    ensures LeadingZeros(Rebase(from, into, ds)) == LeadingZeros(ds)
  {
    hide Value, Digits, Reverse, LeadingZeros, Zeros, BigEndian;
    var v, k := Value(from, Reverse(ds)), LeadingZeros(ds);
    var u := Reverse(Digits(into, v));
    ValueOfDigits(into, v);
    ReverseReverse(Digits(into, v));
    ReverseCanonical(into, u);
    LeadingZerosOf(k, u);
    ValueIgnoresLeadingZeros(into, k, u);
    BigEndianIsValue(into, Zeros(k) + u);
    BigEndianIsValue(from, ds);
  }

  /** The encoding is the same number in base 58, most significant digit first, with one leading
      zero digit, the symbol `1`, for each leading zero byte. */
  lemma EncodeMeans(x: bytes)
    ensures IsBase58(Encode(x)) && ALPHABET[0] == '1'
    ensures BigEndian(58, Positions(Encode(x))) == BigEndian(256, x)
    ensures LeadingZeros(Positions(Encode(x))) == LeadingZeros(x)
  {
    hide BigEndian, LeadingZeros, Rebase;
    RebaseInverse(256, 58, x);
    PositionsOfChars(Rebase(256, 58, x));
    RebaseMeans(256, 58, x);
    AlphabetCode(0);
  }

  // ----- the loops -----

  lemma CarryStep(v: nat, w: nat, carry: nat, v0: nat, d: nat, inBase: nat, outBase: nat, digit: nat, r: nat,
      carry': nat)
    requires v + w * carry == v0 * inBase + digit
    requires carry + d * inBase == r + outBase * carry'
    ensures (v + w * r) + (w * outBase) * carry' == (v0 + w * d) * inBase + digit
  {
    calc {
      (v + w * r) + (w * outBase) * carry';
      v + w * (r + outBase * carry');
      v + w * (carry + d * inBase);
      (v + w * carry) + (w * d) * inBase;
    }
  }

  lemma SumFits(carry: nat, d: nat, inBase: nat, outBase: nat)
    requires carry < inBase && d < outBase && inBase * outBase <= TWO_32
    ensures 0 <= carry + d * inBase < inBase * outBase
  {
    MulMonotone(d + 1, outBase, inBase);
  }

  lemma CarryBound(carry: nat, d: nat, inBase: nat, outBase: nat, d': nat, carry': nat)
    requires carry < inBase && d < outBase && inBase * outBase <= TWO_32
    requires carry + d * inBase == d' + outBase * carry'
    ensures carry + d * inBase < TWO_32 && carry' < inBase
  {
    SumFits(carry, d, inBase, outBase);
    if carry' >= inBase { MulMonotone(inBase, carry', outBase); }
  }

  /** `ds[..i]` has been multiplied through, `carry` is still to be added above it. */
  predicate Carried(inBase: nat, outBase: nat, digit: nat, ds: seq<nat>, i: nat, r: seq<nat>, carry: nat)
    requires i <= |ds| && i <= |r|
  {
    Value(outBase, r[..i]) + Pow(outBase, i) * carry == Value(outBase, ds[..i]) * inBase + digit
  }

  lemma CarryOne(inBase: nat, outBase: nat, digit: nat, ds: seq<nat>, i: nat, r: seq<nat>, carry: nat, d': nat,
      carry': nat)
    requires i < |ds| == |r| && Carried(inBase, outBase, digit, ds, i, r, carry)
    requires carry + ds[i] * inBase == d' + outBase * carry'
    ensures Carried(inBase, outBase, digit, ds, i + 1, r[i := d'], carry')
  {
    assert r[i := d'][..i + 1] == r[..i] + [d'];
    assert ds[..i + 1] == ds[..i] + [ds[i]];
    ValueSnoc(outBase, r[..i], d');
    ValueSnoc(outBase, ds[..i], ds[i]);
    CarryStep(Value(outBase, r[..i]), Pow(outBase, i), carry, Value(outBase, ds[..i]), ds[i], inBase, outBase, digit,
        d', carry');
  }

  lemma PushOne(total: int, outBase: nat, r: seq<nat>, carry: nat, low: nat, high: nat)
    requires Value(outBase, r) + Pow(outBase, |r|) * carry == total
    requires carry == low + outBase * high
    ensures Value(outBase, r + [low]) + Pow(outBase, |r| + 1) * high == total
  {
    ValueSnoc(outBase, r, low);
    PushValue(Value(outBase, r), Pow(outBase, |r|), carry, low, outBase, high);
  }

  lemma PushValue(v: nat, w: nat, carry: nat, low: nat, base: nat, high: nat)
    requires carry == low + base * high
    ensures (v + w * low) + (w * base) * high == v + w * carry
  {
  }

  /** What the first inner loop keeps. */
  predicate Carrying(inBase: u32, outBase: u32, digit: nat, ds: seq<nat>, i: nat, r: seq<nat>, carry: nat) {
    && i <= |r| == |ds| && carry < inBase && AreDigits(outBase, r) && r[i..] == ds[i..]
    && Carried(inBase, outBase, digit, ds, i, r, carry)
    && (i > 0 && ds[i - 1] != 0 ==> carry > 0 || r[i - 1] != 0)
  }

  lemma CarryingStep(inBase: u32, outBase: u32, digit: nat, ds: seq<nat>, i: nat, r: seq<nat>, carry: nat, d': nat,
      carry': nat)
    requires inBase >= 2 && outBase >= 2 && inBase * outBase <= TWO_32
    requires i < |ds| && Carrying(inBase, outBase, digit, ds, i, r, carry)
    requires d' < outBase && carry + r[i] * inBase == d' + outBase * carry'
    ensures carry + r[i] * inBase < TWO_32
    ensures Carrying(inBase, outBase, digit, ds, i + 1, r[i := d'], carry')
  {
    assert r[i] == r[i..][0] == ds[i];
    CarryBound(carry, ds[i], inBase, outBase, d', carry');
    CarryOne(inBase, outBase, digit, ds, i, r, carry, d', carry');
    NonzeroSurvives(ds[i], inBase, carry, d', outBase, carry');
    assert r[i := d'][i + 1..] == r[i..][1..];
  }

  /** The 32-bit accumulator does not overflow. */
  lemma CarryingFits(inBase: u32, outBase: u32, digit: nat, ds: seq<nat>, i: nat, r: seq<nat>, carry: nat)
    requires inBase >= 2 && outBase >= 2 && inBase * outBase <= TWO_32
    requires i < |ds| && Carrying(inBase, outBase, digit, ds, i, r, carry)
    ensures 0 <= carry + r[i] * inBase < TWO_32
  {
    hide Carried, Canonical, Value, Pow;
    SumFits(carry, r[i], inBase, outBase);
  }

  /** What the second inner loop keeps. */
  predicate Pushing(outBase: u32, total: int, r: seq<nat>, carry: nat) {
    && AreDigits(outBase, r) && (r != [] ==> carry > 0 || r[|r| - 1] != 0)
    && Value(outBase, r) + Pow(outBase, |r|) * carry == total
  }

  lemma PushingStep(outBase: u32, total: int, r: seq<nat>, carry: nat)
    requires outBase >= 2 && carry > 0 && Pushing(outBase, total, r, carry)
    ensures Pushing(outBase, total, r + [carry % outBase], carry / outBase)
    ensures 0 <= carry / outBase < carry
  {
    DivModIdentity(carry, outBase);
    PushOne(total, outBase, r, carry, carry % outBase, carry / outBase);
  }

  lemma CarryingStart(inBase: u32, outBase: u32, digit: nat, ds: seq<nat>)
    requires Canonical(outBase, ds) && digit < inBase
    ensures Carrying(inBase, outBase, digit, ds, 0, ds, digit)
  {
    assert ds[..0] == [];
  }

  lemma CarryingDone(inBase: u32, outBase: u32, digit: nat, ds: seq<nat>, r: seq<nat>, carry: nat)
    requires Canonical(outBase, ds) && Carrying(inBase, outBase, digit, ds, |ds|, r, carry)
    ensures Pushing(outBase, Value(outBase, ds) * inBase + digit, r, carry)
  {
    assert r[..|r|] == r && ds[..|ds|] == ds;
  }

  lemma PushingDone(outBase: u32, total: int, r: seq<nat>)
    requires Pushing(outBase, total, r, 0)
    ensures Canonical(outBase, r) && Value(outBase, r) == total
  {
  }

  /** The first inner loop: every digit times `inBase`, plus the carry. */
  method MultiplyThrough(ds: seq<nat>, inBase: u32, outBase: u32, digit: nat) returns (r: seq<nat>, carry: u32)
    requires inBase >= 2 && outBase >= 2 && inBase * outBase <= TWO_32
    requires Canonical(outBase, ds) && digit < inBase
    ensures Carrying(inBase, outBase, digit, ds, |ds|, r, carry)
  {
    hide Carrying, Canonical;
    r := ds;
    carry := digit;
    var i := 0;
    CarryingStart(inBase, outBase, digit, ds);
    while i < |r|
      invariant 0 <= i <= |r| == |ds| && Carrying(inBase, outBase, digit, ds, i, r, carry)
    {
      DivModIdentity(carry + r[i] * inBase, outBase);
      CarryingFits(inBase, outBase, digit, ds, i, r, carry);
      var t: u32 := carry + r[i] * inBase;
      CarryingStep(inBase, outBase, digit, ds, i, r, carry, t % outBase, t / outBase);
      r := r[i := t % outBase];
      carry := t / outBase;
      i := i + 1;
    }
  }

  /** Both inner loops: multiply the digit vector by `inBase`, add one digit, push the carry. */
  method ShiftIn(ds: seq<nat>, inBase: u32, outBase: u32, digit: nat) returns (r: seq<nat>)
    requires inBase >= 2 && outBase >= 2 && inBase * outBase <= TWO_32
    requires Canonical(outBase, ds) && digit < inBase
    ensures Canonical(outBase, r)
    ensures Value(outBase, r) == Value(outBase, ds) * inBase + digit
  {
    var carry: u32;
    r, carry := MultiplyThrough(ds, inBase, outBase, digit);
    ghost var total: int := Value(outBase, ds) * inBase + digit;
    CarryingDone(inBase, outBase, digit, ds, r, carry);
    while carry > 0
      invariant Pushing(outBase, total, r, carry)
    {
      PushingStep(outBase, total, r, carry);
      var q := carry / outBase;
      r := r + [carry % outBase];
      carry := q;
    }
    PushingDone(outBase, total, r);
  }

  lemma NonzeroSurvives(d: nat, inBase: nat, carry: nat, d': nat, base: nat, carry': nat)
    requires inBase >= 2 && carry + d * inBase == d' + base * carry'
    ensures d != 0 ==> d' != 0 || carry' > 0
  {
    if d != 0 {
      MulMonotone(1, d, inBase);
    }
  }

  /** The leading zeros counted by `take_while`, and the digits of the rest, make the numeral. */
  lemma RebaseFromParts(from: nat, into: nat, ds: seq<nat>, digits: seq<nat>)
    requires into >= 2 && Canonical(into, digits) && Value(into, digits) == Value(from, Reverse(ds))
    ensures Rebase(from, into, ds) == Zeros(LeadingZeros(ds)) + Reverse(digits)
  {
    DigitsOfValue(into, digits);
  }

  lemma ShiftInReversed(from: nat, s: seq<nat>, i: nat)
    requires i < |s|
    ensures Value(from, Reverse(s[..i + 1])) == Value(from, Reverse(s[..i])) * from + s[i]
  {
    assert Reverse(s[..i + 1]) == [s[i]] + Reverse(s[..i]);
    assert ([s[i]] + Reverse(s[..i]))[1..] == Reverse(s[..i]);
  }

  method CountLeadingZeros(ds: seq<nat>) returns (zeros: nat)
    ensures zeros == LeadingZeros(ds)
  {
    zeros := 0;
    while zeros < |ds| && ds[zeros] == 0
      invariant 0 <= zeros <= |ds|
      invariant LeadingZeros(ds) == zeros + LeadingZeros(ds[zeros..])
    {
      assert ds[zeros..][1..] == ds[zeros + 1..];
      zeros := zeros + 1;
    }
  }

  /** `base58_encode` */
  method EncodeLoop(input: bytes) returns (out: string)
    ensures out == Encode(input)
  {
    var zeros := CountLeadingZeros(input);
    var digits: seq<nat> := [];
    var i := 0;
    while i < |input|
      invariant 0 <= i <= |input| && Canonical(58, digits)
      invariant Value(58, digits) == Value(256, Reverse(input[..i]))
    {
      ShiftInReversed(256, input, i);
      digits := ShiftIn(digits, 256, 58, input[i]);
      i := i + 1;
    }
    assert input[..i] == input;
    RebaseFromParts(256, 58, input, digits);
    out := Spell(zeros, digits);
  }

  method Spell(zeros: nat, digits: seq<nat>) returns (out: string)
    requires AreDigits(58, digits)
    ensures out == Chars(Zeros(zeros) + Reverse(digits))
  {
    out := seq(zeros, _ => '1');
    assert ALPHABET[0] == '1';
    var j := |digits|;
    while j > 0
      invariant 0 <= j <= |digits|
      invariant out == Chars(Zeros(zeros) + Reverse(digits[j..]))
    {
      j := j - 1;
      out := out + [ALPHABET[digits[j]]];
      assert Reverse(digits[j..]) == Reverse(digits[j + 1..]) + [digits[j]];
      assert Zeros(zeros) + Reverse(digits[j..]) == (Zeros(zeros) + Reverse(digits[j + 1..])) + [digits[j]];
    }
    assert digits[0..] == digits;
  }

  lemma PositionsSnoc(s: string, i: nat)
    requires i < |s| && IsBase58(s[..i]) && Position(ALPHABET, s[i]).Some?
    ensures IsBase58(s[..i + 1])
    ensures Value(58, Reverse(Positions(s[..i + 1]))) ==
            Value(58, Reverse(Positions(s[..i]))) * 58 + Position(ALPHABET, s[i]).value
  {
    var ds := Positions(s[..i + 1]);
    assert ds[..i] == Positions(s[..i]) && ds[..i + 1] == ds;
    ShiftInReversed(58, ds, i);
  }

  lemma NothingRead(s: string)
    ensures Value(256, []) == Value(58, Reverse(Positions(s[..0])))
  {
    assert Reverse(Positions(s[..0])) == [];
  }

  /** `base58_decode` */
  method DecodeLoop(s: string) returns (r: Result<bytes, Base58Error>)
    ensures r == Decode(s)
  {
    hide Value, Position, Rebase, LeadingZeros, Reverse;
    NothingRead(s);
    var digits: seq<nat> := [];
    var i := 0;
    while i < |s|
      invariant 0 <= i <= |s| && Canonical(256, digits) && IsBase58(s[..i])
      invariant Value(256, digits) == Value(58, Reverse(Positions(s[..i])))
    {
      var val := Position(ALPHABET, s[i]);
      if val.None? {
        return Err(InvalidCharacter);
      }
      PositionsSnoc(s, i);
      digits := ShiftIn(digits, 58, 256, val.value);
      i := i + 1;
    }
    assert s[..i] == s;
    RebaseFromParts(58, 256, Positions(s), digits);
    var zeros := CountLeadingZeros(Positions(s));
    ReverseCanonical(256, Reverse(digits));
    ReverseReverse(digits);
    PaddedDigits(256, zeros, Reverse(digits));
    return Ok(Zeros(zeros) + Reverse(digits));
  }
}
