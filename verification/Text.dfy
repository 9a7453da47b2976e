/** Trimming, ASCII case and the two hexadecimal forms of byte strings. */
module Text {
  import opened Machine

  datatype HexError = NotAHash | NotHex

  /** The Unicode `White_Space` characters. */
  predicate IsWhitespace(c: char) {
    var n := c as int;
    || 0x09 <= n <= 0x0D || n == 0x20 || n == 0x85 || n == 0xA0 || n == 0x1680 || 0x2000 <= n <= 0x200A
    || n == 0x2028 || n == 0x2029 || n == 0x202F || n == 0x205F || n == 0x3000
  }

  function TrimStart(s: string): string {
    if s != [] && IsWhitespace(s[0]) then TrimStart(s[1..]) else s
  }

  function TrimEnd(s: string): string {
    if s != [] && IsWhitespace(s[|s| - 1]) then TrimEnd(s[..|s| - 1]) else s
  }

  function Trim(s: string): string { TrimEnd(TrimStart(s)) }

  lemma {:induction false} TrimIsIdentity(s: string)
    requires forall i :: 0 <= i < |s| ==> !IsWhitespace(s[i])
    ensures Trim(s) == s
  {
  }

  lemma {:induction false} TrimEndEnds(s: string)
    ensures TrimEnd(s) <= s && (TrimEnd(s) != [] ==> !IsWhitespace(TrimEnd(s)[|TrimEnd(s)| - 1]))
  {
    if s != [] && IsWhitespace(s[|s| - 1]) {
      TrimEndEnds(s[..|s| - 1]);
    }
  }

  lemma {:induction false} TrimStartStarts(s: string)
    ensures TrimStart(s) != [] ==> !IsWhitespace(TrimStart(s)[0])
  {
    if s != [] && IsWhitespace(s[0]) {
      TrimStartStarts(s[1..]);
    }
  }

  /** White space is taken off both ends, and nothing else. */
  lemma TrimTakes(s: string) returns (before: string, after: string)
    ensures s == before + Trim(s) + after
    ensures forall i :: 0 <= i < |before| ==> IsWhitespace(before[i])
    ensures forall i :: 0 <= i < |after| ==> IsWhitespace(after[i])
    ensures var t := Trim(s); t != [] ==> !IsWhitespace(t[0]) && !IsWhitespace(t[|t| - 1])
  {
    hide IsWhitespace;
    before := TrimStartTakes(s);
    after := TrimEndTakes(TrimStart(s));
    TrimStartStarts(s);
    TrimEndEnds(TrimStart(s));
  }

  lemma {:induction false} TrimStartTakes(s: string) returns (before: string)
    ensures s == before + TrimStart(s) && forall i :: 0 <= i < |before| ==> IsWhitespace(before[i])
  {
    hide IsWhitespace;
    before := [];
    if s != [] && IsWhitespace(s[0]) {
      before := TrimStartTakes(s[1..]);
      before := [s[0]] + before;
      assert s == [s[0]] + s[1..];
    }
  }

  lemma {:induction false} TrimEndTakes(s: string) returns (after: string)
    ensures s == TrimEnd(s) + after && forall i :: 0 <= i < |after| ==> IsWhitespace(after[i])
  {
    hide IsWhitespace;
    after := [];
    if s != [] && IsWhitespace(s[|s| - 1]) {
      after := TrimEndTakes(s[..|s| - 1]);
      after := after + [s[|s| - 1]];
    }
  }

  lemma TrimIdempotent(s: string)
    ensures Trim(Trim(s)) == Trim(s)
  {
    TrimStartStarts(s);
    TrimEndEnds(TrimStart(s));
  }

  function LowerChar(c: char): char {
    if 'A' <= c <= 'Z' then (c as int + 32) as char else c
  }

  function Lower(s: string): (l: string)
    ensures |l| == |s|
  {
    seq(|s|, i requires 0 <= i < |s| => LowerChar(s[i]))
  }

  /** `eq_ignore_ascii_case` */
  predicate EqIgnoreCase(s: string, t: string) { Lower(s) == Lower(t) }

  lemma {:induction false} LowerTrimStart(s: string)
    ensures TrimStart(Lower(s)) == Lower(TrimStart(s))
  {
    if s != [] {
      assert Lower(s)[1..] == Lower(s[1..]);
      LowerTrimStart(s[1..]);
    }
  }

  lemma {:induction false} LowerTrimEnd(s: string)
    ensures TrimEnd(Lower(s)) == Lower(TrimEnd(s))
  {
    if s != [] {
      assert Lower(s)[..|s| - 1] == Lower(s[..|s| - 1]);
      LowerTrimEnd(s[..|s| - 1]);
    }
  }

  lemma LowerTrim(s: string)
    ensures Trim(Lower(s)) == Lower(Trim(s))
  {
    LowerTrimStart(s);
    LowerTrimEnd(TrimStart(s));
  }

  // ----- order -----

  /** The order of strings, which in UTF-8 is that of their characters. */
  predicate Less(s: string, t: string) {
    if t == [] then false
    else if s == [] then true
    else s[0] < t[0] || (s[0] == t[0] && Less(s[1..], t[1..]))
  }

  lemma {:induction false} LessTotal(s: string, t: string)
    ensures !Less(s, s)
    ensures s != t ==> (Less(s, t) <==> !Less(t, s))
  {
    if s != [] {
      LessTotal(s[1..], if t == [] then [] else t[1..]);
      if t != [] { assert s == [s[0]] + s[1..] && t == [t[0]] + t[1..]; }
    }
  }

  /** The order of a dictionary: a proper prefix comes first, otherwise the first difference decides. */
  lemma {:induction false} LessIff(s: string, t: string)
    ensures Less(s, t) <==>
            exists k :: 0 <= k <= |s| && k < |t| && s[..k] == t[..k] && (k == |s| || s[k] < t[k])
  {
    if s != [] && t != [] && s[0] == t[0] {
      LessIff(s[1..], t[1..]);
      var a, b := s[1..], t[1..];
      if k :| 0 <= k <= |a| && k < |b| && a[..k] == b[..k] && (k == |a| || a[k] < b[k]) {
        assert s[..k + 1] == [s[0]] + s[1..][..k] && t[..k + 1] == [t[0]] + t[1..][..k];
        assert k + 1 == |s| || s[k + 1] < t[k + 1];
      }
      if k :| 0 <= k <= |s| && k < |t| && s[..k] == t[..k] && (k == |s| || s[k] < t[k]) {
        assert k > 0;
        assert s[1..][..k - 1] == s[..k][1..] && t[1..][..k - 1] == t[..k][1..];
      }
    } else if t != [] {
      assert s[..0] == t[..0];
      forall k | 0 < k <= |s| && k < |t| && s != [] ensures s[..k] != t[..k] {
        assert s[..k][0] == s[0] && t[..k][0] == t[0];
      }
    }
  }

  lemma {:induction false} LessTransitive(s: string, t: string, u: string)
    requires Less(s, t) && Less(t, u)
    ensures Less(s, u)
  {
    if s != [] && s[0] == t[0] && t[0] == u[0] {
      LessTransitive(s[1..], t[1..], u[1..]);
    }
  }

  // ----- hexadecimal -----

  function HexChar(v: nat): char
    requires v < 16
  {
    if v < 10 then (48 + v) as char else (87 + v) as char
  }

  predicate IsHexDigit(c: char) { '0' <= c <= '9' || 'a' <= c <= 'f' || 'A' <= c <= 'F' }

  function HexValue(c: char): (v: nat)
    requires IsHexDigit(c)
    ensures v < 16
  {
    if c <= '9' then c as int - 48 else if c <= 'F' then c as int - 55 else c as int - 87
  }

  lemma HexValueIff(c: char, v: nat)
    requires v < 16
    ensures IsHexDigit(c) && HexValue(c) == v <==> LowerChar(c) == HexChar(v)
  {
  }

  predicate AllHex(s: string) { forall i :: 0 <= i < |s| ==> IsHexDigit(s[i]) }

  function ToHex(b: bytes): (s: string)
    ensures |s| == 2 * |b|
  {
    seq(2 * |b|, i requires 0 <= i < 2 * |b| => HexChar(if i % 2 == 0 then b[i / 2] / 16 else b[i / 2] % 16))
  }

  function BytePair(s: string, i: nat): byte
    requires 2 * i + 1 < |s| && AllHex(s)
  {
    16 * HexValue(s[2 * i]) + HexValue(s[2 * i + 1])
  }

  function Pairs(t: string): (b: bytes)
    requires |t| % 2 == 0 && AllHex(t)
    ensures |b| == |t| / 2
  {
    seq(|t| / 2, i requires 0 <= i < |t| / 2 => BytePair(t, i))
  }

  function FromHex(s: string): Result<bytes, HexError> {
    var t := Trim(s);
    if |t| % 2 != 0 || !AllHex(t) then Err(NotHex) else Ok(Pairs(t))
  }

  lemma BytePairIff(s: string, i: nat, b: byte)
    requires 2 * i + 1 < |s| && AllHex(s)
    ensures BytePair(s, i) == b <==>
            LowerChar(s[2 * i]) == HexChar(b / 16) && LowerChar(s[2 * i + 1]) == HexChar(b % 16)
  {
    HexValueIff(s[2 * i], b / 16);
    HexValueIff(s[2 * i + 1], b % 16);
  }

  lemma LowerHexIsHex(s: string, b: bytes)
    requires Lower(s) == ToHex(b)
    ensures AllHex(s)
  {
    forall i | 0 <= i < |s| ensures IsHexDigit(s[i]) {
      assert LowerChar(s[i]) == ToHex(b)[i];
      HexValueIff(s[i], if i % 2 == 0 then b[i / 2] / 16 else b[i / 2] % 16);
    }
  }

  /** Hex decoding accepts the printed form of `b`, in either case and padded with white
      space, and nothing else decodes to `b`. */
  lemma FromHexIff(s: string, b: bytes)
    ensures FromHex(s) == Ok(b) <==> Lower(Trim(s)) == ToHex(b)
  {
    hide Trim, BytePair, HexChar;
    var t := Trim(s);
    if Lower(t) == ToHex(b) {
      LowerHexIsHex(t, b);
      forall i | 0 <= i < |b| ensures BytePair(t, i) == b[i] {
        assert LowerChar(t[2 * i]) == ToHex(b)[2 * i] && LowerChar(t[2 * i + 1]) == ToHex(b)[2 * i + 1];
        BytePairIff(t, i, b[i]);
      }
      assert Pairs(t) == b;
    }
    if FromHex(s) == Ok(b) {
      forall k | 0 <= k < |t| ensures LowerChar(t[k]) == ToHex(b)[k] {
        assert BytePair(t, k / 2) == Pairs(t)[k / 2] == b[k / 2];
        BytePairIff(t, k / 2, b[k / 2]);
      }
      assert Lower(t) == ToHex(b);
    }
  }

  lemma ToHexIsTrimmed(b: bytes)
    ensures Lower(Trim(ToHex(b))) == ToHex(b)
  {
    TrimIsIdentity(ToHex(b));
  }

  /** Two symbols a byte, the high half first. */
  lemma HexDigitsAre(b: bytes, i: nat)
    requires i < |b|
    ensures ToHex(b)[2 * i] == "0123456789abcdef"[b[i] / 16] && ToHex(b)[2 * i + 1] == "0123456789abcdef"[b[i] % 16]
  {
    HexSymbol(b[i] / 16);
    HexSymbol(b[i] % 16);
  }

  lemma HexSymbol(v: nat)
    requires v < 16
    ensures HexChar(v) == "0123456789abcdef"[v]
  {
    if v < 10 { assert "0123456789abcdef"[..10] == "0123456789"; } else { assert "0123456789abcdef"[10..] == "abcdef"; }
  }

  // ----- display order -----

  function ReverseDigest(d: Digest): Digest { seq(32, i requires 0 <= i < 32 => d[31 - i]) }

  function DisplayHex(d: Digest): string { ToHex(ReverseDigest(d)) }

  function HashFromDisplayHex(s: string): Result<Digest, HexError> {
    var t := Trim(s);
    if |t| != 64 || !AllHex(t) then Err(NotAHash)
    else Ok(ReverseDigest(Pairs(t)))
  }

  lemma HashIsReversedHex(s: string, h: Digest)
    ensures HashFromDisplayHex(s) == Ok(h) <==> FromHex(s) == Ok(ReverseDigest(h))
  {
    var t := Trim(s);
    if |t| == 64 && AllHex(t) {
      assert HashFromDisplayHex(s).value == ReverseDigest(Pairs(t));
      assert ReverseDigest(ReverseDigest(Pairs(t))) == Pairs(t);
      assert ReverseDigest(ReverseDigest(h)) == h;
    }
  }

  /** A display string names `h` exactly when it is `h`'s display form up to case and padding. */
  lemma HashFromDisplayHexIff(s: string, h: Digest)
    ensures HashFromDisplayHex(s) == Ok(h) <==> Lower(Trim(s)) == DisplayHex(h)
  {
    HashIsReversedHex(s, h);
    FromHexIff(s, ReverseDigest(h));
  }

  /** A hash is displayed from its last byte to its first. */
  lemma DisplayHexIsReversed(h: Digest, i: nat)
    requires i < 32
    ensures DisplayHex(h)[2 * i..2 * i + 2] == ToHex([h[31 - i]])
  {
    hide HexChar;
    assert ReverseDigest(h)[i] == h[31 - i];
  }

  lemma DisplayHexRoundTrip(h: Digest)
    ensures HashFromDisplayHex(DisplayHex(h)) == Ok(h)
  {
    ToHexIsTrimmed(ReverseDigest(h));
    HashFromDisplayHexIff(DisplayHex(h), h);
  }

  lemma ToHexRoundTrip(b: bytes)
    ensures FromHex(ToHex(b)) == Ok(b)
  {
    ToHexIsTrimmed(b);
    FromHexIff(ToHex(b), b);
  }

  /** Two spellings that differ only in ASCII case name the same hash. */
  lemma HashIgnoresCase(s: string, t: string)
    requires EqIgnoreCase(s, t)
    ensures HashFromDisplayHex(s) == HashFromDisplayHex(t)
  {
    LowerTrim(s);
    LowerTrim(t);
    if HashFromDisplayHex(s).Ok? {
      HashFromDisplayHexIff(s, HashFromDisplayHex(s).value);
      HashFromDisplayHexIff(t, HashFromDisplayHex(s).value);
    }
    if HashFromDisplayHex(t).Ok? {
      HashFromDisplayHexIff(t, HashFromDisplayHex(t).value);
      HashFromDisplayHexIff(s, HashFromDisplayHex(t).value);
    }
  }

  /** `hash_from_display_hex`: fill the array from its far end. */
  method HashFromDisplayHexLoop(s: string) returns (r: Result<Digest, HexError>)
    ensures r == HashFromDisplayHex(s)
  {
    var t := Trim(s);
    if |t| != 64 || !AllHex(t) {
      return Err(NotAHash);
    }
    var out := new byte[32](_ => 0);
    for i := 0 to 32
      invariant forall k :: 0 <= k < i ==> out[31 - k] == BytePair(t, k)
    {
      out[31 - i] := BytePair(t, i);
    }
    assert forall k :: 0 <= k < 32 ==> out[k] == out[31 - (31 - k)];
    assert out[..] == ReverseDigest(Pairs(t));
    r := Ok(out[..]);
  }
}
