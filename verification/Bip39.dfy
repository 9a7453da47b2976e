/** BIP-39 ("Generating the mnemonic"): entropy and checksum bits, read off in groups of
    eleven, and the way back. */
module Bip39 {
  import opened Machine
  import opened Radix
  import opened Text

  type bit = x: int | 0 <= x < 2

  datatype MnemonicError = BadEntropyLength | BadWordCount | UnknownWord | BadChecksum

  // ----- bits, most significant first -----

  function FromBits(b: seq<bit>): (v: nat)
    ensures v < Pow(2, |b|)
  {
    if b == [] then 0 else 2 * FromBits(b[..|b| - 1]) + b[|b| - 1]
  }

  function ToBits(w: nat, v: nat): (b: seq<bit>)
    ensures |b| == w
  {
    if w == 0 then [] else ToBits(w - 1, v / 2) + [v % 2]
  }

  /** The values of `vals`, `w` bits each. */
  function Spread(w: nat, vals: seq<nat>): seq<bit> {
    if vals == [] then [] else ToBits(w, vals[0]) + Spread(w, vals[1..])
  }

  /** The values of consecutive `w`-bit groups; an incomplete group is dropped. */
  function Chunks(w: nat, b: seq<bit>): seq<nat>
    requires w > 0
    decreases |b|
  {
    if |b| < w then [] else [FromBits(b[..w])] + Chunks(w, b[w..])
  }

  lemma {:induction false} FromBitsToBits(w: nat, v: nat)
    requires v < Pow(2, w)
    ensures FromBits(ToBits(w, v)) == v
  {
    if w > 0 {
      FromBitsToBits(w - 1, v / 2);
      assert ToBits(w, v)[..w - 1] == ToBits(w - 1, v / 2);
    }
  }

  lemma {:induction false} ToBitsFromBits(b: seq<bit>)
    ensures ToBits(|b|, FromBits(b)) == b
  {
    if b != [] {
      ToBitsFromBits(b[..|b| - 1]);
      assert b == b[..|b| - 1] + [b[|b| - 1]];
    }
  }

  lemma {:induction false} ChunksOfSpread(w: nat, vals: seq<nat>)
    requires w > 0 && forall i :: 0 <= i < |vals| ==> vals[i] < Pow(2, w)
    ensures Chunks(w, Spread(w, vals)) == vals
  {
    if vals != [] {
      FromBitsToBits(w, vals[0]);
      ChunksOfSpread(w, vals[1..]);
      var b := Spread(w, vals);
      assert b[..w] == ToBits(w, vals[0]) && b[w..] == Spread(w, vals[1..]);
      assert vals == [vals[0]] + vals[1..];
    }
  }

  lemma {:induction false} SpreadOfChunks(w: nat, b: seq<bit>, n: nat)
    requires w > 0 && |b| == w * n
    ensures Spread(w, Chunks(w, b)) == b && |Chunks(w, b)| == n
    ensures forall i :: 0 <= i < n ==> Chunks(w, b)[i] < Pow(2, w)
    decreases n
  {
    if n > 0 {
      MulMonotone(1, n, w);
      var rest := b[w..];
      assert |rest| == w * (n - 1);
      SpreadOfChunks(w, rest, n - 1);
      ToBitsFromBits(b[..w]);
      var c := Chunks(w, b);
      assert c == [FromBits(b[..w])] + Chunks(w, rest) && c[1..] == Chunks(w, rest);
      assert b == b[..w] + rest;
      forall i | 0 <= i < n ensures c[i] < Pow(2, w) {
        if i > 0 { assert c[i] == Chunks(w, rest)[i - 1]; }
      }
    }
  }

  lemma {:induction false} SpreadLength(w: nat, vals: seq<nat>)
    ensures |Spread(w, vals)| == w * |vals|
  {
    if vals != [] {
      SpreadLength(w, vals[1..]);
      assert w * |vals| == w + w * |vals[1..]|;
    }
  }

  /** `(v >> (w - 1 - j)) & 1` */
  lemma {:induction false} BitOf(w: nat, v: nat, j: nat)
    requires j < w
    ensures ToBits(w, v)[j] == Shr(v, w - 1 - j) % 2
  {
    if j < w - 1 {
      BitOf(w - 1, v / 2, j);
      HalfShift(v, w - 2 - j);
    } else {
      assert Pow(2, 0) == 1;
    }
  }

  lemma HalfQuotient(v: nat, p: nat)
    requires p > 0
    ensures (v / 2) / p == v / (2 * p)
  {
    var q, r := (v / 2) / p, (v / 2) % p;
    DivModIdentity(v / 2, p);
    assert v == 2 * (p * q + r) + v % 2;
    assert 2 * (p * q + r) + v % 2 == (2 * p) * q + (2 * r + v % 2) by { MulRotate(2, p, q); }
    DivModUnique(2 * p, q, 2 * r + v % 2);
  }

  lemma HalfShift(v: nat, k: nat)
    ensures Shr(v / 2, k) == Shr(v, k + 1)
  {
    HalfQuotient(v, Pow(2, k));
  }

  /** Bit `n` of a byte string, as the loops pick it out. */
  function BitAt(b: bytes, n: nat): bit
    requires n < 8 * |b|
  {
    Shr(b[n / 8], 7 - n % 8) % 2
  }

  lemma {:induction false} SpreadAt(b: bytes, n: nat)
    requires n < 8 * |b|
    ensures |Spread(8, b)| == 8 * |b| && Spread(8, b)[n] == BitAt(b, n)
    decreases n
  {
    SpreadLength(8, b);
    if n < 8 {
      BitOf(8, b[0], n);
    } else {
      SpreadAt(b[1..], n - 8);
      assert n / 8 == (n - 8) / 8 + 1 && n % 8 == (n - 8) % 8;
    }
  }

  // ----- the word list -----

  predicate IsWord(w: string) { w != [] && forall i :: 0 <= i < |w| ==> !IsWhitespace(w[i]) }

  /** 2048 different words without white space. */
  predicate IsWordList(list: seq<string>) {
    && |list| == 2048 && (forall i :: 0 <= i < 2048 ==> IsWord(list[i]))
    && forall i, j :: 0 <= i < j < 2048 ==> list[i] != list[j]
  }

  function IndexOf(list: seq<string>, w: string): (p: Option<nat>)
    ensures p.Some? ==> p.value < |list| && list[p.value] == w
    ensures p.None? ==> w !in list
  {
    if list == [] then None
    else if list[0] == w then Some(0)
    else match IndexOf(list[1..], w) case None => None case Some(p) => Some(p + 1)
  }

  predicate AllKnown(list: seq<string>, words: seq<string>) {
    forall i :: 0 <= i < |words| ==> IndexOf(list, words[i]).Some?
  }

  function Indices(list: seq<string>, words: seq<string>): (idx: seq<nat>)
    requires AllKnown(list, words)
    ensures |idx| == |words|
  {
    seq(|words|, i requires 0 <= i < |words| => IndexOf(list, words[i]).value)
  }

  function WordsAt(list: seq<string>, idx: seq<nat>): (words: seq<string>)
    requires forall i :: 0 <= i < |idx| ==> idx[i] < |list|
    ensures |words| == |idx|
  {
    seq(|idx|, i requires 0 <= i < |idx| => list[idx[i]])
  }

  lemma WordsOfIndices(list: seq<string>, words: seq<string>)
    requires AllKnown(list, words)
    ensures WordsAt(list, Indices(list, words)) == words
    ensures forall i :: 0 <= i < |words| ==> Indices(list, words)[i] < |list|
  {
  }

  lemma IndicesOfWords(list: seq<string>, idx: seq<nat>)
    requires IsWordList(list) && forall i :: 0 <= i < |idx| ==> idx[i] < 2048
    ensures AllKnown(list, WordsAt(list, idx)) && Indices(list, WordsAt(list, idx)) == idx
  {
    forall i | 0 <= i < |idx| ensures IndexOf(list, list[idx[i]]) == Some(idx[i]) {
      var p := IndexOf(list, list[idx[i]]);
      assert list[idx[i]] in list;
    }
  }

  // ----- entropy to words and back -----

  predicate ValidLength(n: nat) { n == 16 || n == 20 || n == 24 || n == 28 || n == 32 }

  predicate ValidCount(n: nat) { n == 12 || n == 15 || n == 18 || n == 21 || n == 24 }

  function ChecksumBits(sha: Hasher, e: bytes): seq<bit>
    requires |e| <= 1024
  {
    SpreadLength(8, sha(e));
    Spread(8, sha(e))[..|e| / 4]
  }

  /** Entropy bits, then the first bits of the entropy's hash. */
  function MnemonicBits(sha: Hasher, e: bytes): seq<bit>
    requires |e| <= 1024
  {
    Spread(8, e) + ChecksumBits(sha, e)
  }

  lemma MnemonicBitsLength(sha: Hasher, e: bytes)
    requires ValidLength(|e|)
    ensures |MnemonicBits(sha, e)| == 8 * |e| + |e| / 4 == 11 * (3 * (|e| / 4))
    ensures ValidCount(3 * (|e| / 4))
  {
    SpreadLength(8, e);
    SpreadLength(8, sha(e));
  }

  lemma ElevenBits()
    ensures Pow(2, 11) == 2048 && Pow(2, 8) == 256
  {
    PowAdd(2, 8, 3);
  }

  function FromEntropy(sha: Hasher, list: seq<string>, e: bytes): Result<seq<string>, MnemonicError>
    requires IsWordList(list)
  {
    if 8 * |e| < 128 || 8 * |e| > 256 || (8 * |e|) % 32 != 0 then Err(BadEntropyLength) else
    assert ValidLength(|e|);
    MnemonicBitsLength(sha, e); ElevenBits();
    SpreadOfChunks(11, MnemonicBits(sha, e), 3 * (|e| / 4));
    Ok(WordsAt(list, Chunks(11, MnemonicBits(sha, e))))
  }

  /** `words.len() * 11 * 32 / 33` */
  function EntropyBits(count: nat): nat { count * 11 * 32 / 33 }

  lemma EntropyBitsOf(count: nat)
    requires ValidCount(count)
    ensures EntropyBits(count) == 32 * (count / 3) && 11 * count == 33 * (count / 3) && ValidLength(4 * (count / 3))
  {
  }

  /** The first `n` bits as bytes. */
  function Rebuild(b: seq<bit>, n: nat): (e: bytes)
    requires n <= |b| && n % 8 == 0
    ensures |e| == n / 8 && Spread(8, e) == b[..n]
  {
    ElevenBits();
    SpreadOfChunks(8, b[..n], n / 8);
    Chunks(8, b[..n])
  }

  lemma RebuildOfSpread(b: seq<bit>, e: bytes)
    requires 8 * |e| <= |b| && b[..8 * |e|] == Spread(8, e)
    ensures Rebuild(b, 8 * |e|) == e
  {
    ElevenBits();
    ChunksOfSpread(8, e);
  }

  function PhraseBits(list: seq<string>, words: seq<string>): (b: seq<bit>)
    requires AllKnown(list, words)
    ensures |b| == 11 * |words|
  {
    SpreadLength(11, Indices(list, words));
    Spread(11, Indices(list, words))
  }

  /** The checks of `parse` on a word sequence, answering the entropy they rebuild (the source
      erases it once the checksum is verified). */
  function ParseWords(sha: Hasher, list: seq<string>, words: seq<string>): Result<bytes, MnemonicError> {
    if !ValidCount(|words|) then Err(BadWordCount)
    else if !AllKnown(list, words) then Err(UnknownWord) else
    EntropyBitsOf(|words|);
    var bits := PhraseBits(list, words);
    var n := EntropyBits(|words|);
    var entropy := Rebuild(bits, n);
    if bits[n..n + n / 32] != ChecksumBits(sha, entropy) then Err(BadChecksum) else Ok(entropy)
  }

  /** Words parse to the entropy `e` exactly when they are the mnemonic of `e`. */
  lemma ParseIffFromEntropy(sha: Hasher, list: seq<string>, words: seq<string>, e: bytes)
    requires IsWordList(list)
    ensures ParseWords(sha, list, words) == Ok(e) <==> FromEntropy(sha, list, e) == Ok(words)
  {
    hide ParseWords, FromEntropy;
    if ParseWords(sha, list, words) == Ok(e) {
      ParsedIsMnemonic(sha, list, words);
    }
    if FromEntropy(sha, list, e) == Ok(words) {
      MnemonicParses(sha, list, e);
    }
  }

  lemma MnemonicParses(sha: Hasher, list: seq<string>, e: bytes)
    requires IsWordList(list) && FromEntropy(sha, list, e).Ok?
    ensures ParseWords(sha, list, FromEntropy(sha, list, e).value) == Ok(e)
  {
    hide IsWordList, Chunks, Spread, Rebuild;
    var words := FromEntropy(sha, list, e).value;
    var b := MnemonicBits(sha, e);
    var idx := Chunks(11, b);
    MnemonicBitsLength(sha, e);
    ElevenBits();
    SpreadOfChunks(11, b, 3 * (|e| / 4));
    IndicesOfWords(list, idx);
    assert PhraseBits(list, words) == b;
    EntropyBitsOf(|words|);
    SpreadLength(8, e);
    assert b[..8 * |e|] == Spread(8, e);
    RebuildOfSpread(b, e);
    assert b[8 * |e|..8 * |e| + |e| / 4] == ChecksumBits(sha, e);
  }

  lemma ParsedIsMnemonic(sha: Hasher, list: seq<string>, words: seq<string>)
    requires IsWordList(list) && ParseWords(sha, list, words).Ok?
    ensures FromEntropy(sha, list, ParseWords(sha, list, words).value) == Ok(words)
  {
    hide Chunks, Spread, Rebuild, Indices, WordsAt;
    var b := PhraseBits(list, words);
    var n := EntropyBits(|words|);
    var e := ParseWords(sha, list, words).value;
    EntropyBitsOf(|words|);
    assert b == b[..n] + b[n..n + n / 32];
    assert b == MnemonicBits(sha, e);
    WordsOfIndices(list, words);
    IndicesFit(list, words);
    ChunksOfSpread(11, Indices(list, words));
  }

  lemma IndicesFit(list: seq<string>, words: seq<string>)
    requires AllKnown(list, words) && |list| == 2048
    ensures forall i :: 0 <= i < |Indices(list, words)| ==> Indices(list, words)[i] < Pow(2, 11)
  {
    ElevenBits();
  }

  lemma {:induction false} SpreadSnoc(w: nat, vals: seq<nat>, v: nat)
    ensures Spread(w, vals + [v]) == Spread(w, vals) + ToBits(w, v)
  {
    if vals == [] {
      assert vals + [v] == [v];
    } else {
      assert (vals + [v])[1..] == vals[1..] + [v];
      SpreadSnoc(w, vals[1..], v);
    }
  }

  // ----- the mnemonic as a number -----

  lemma {:induction false} FromBitsConcat(a: seq<bit>, b: seq<bit>)
    ensures FromBits(a + b) == FromBits(a) * Pow(2, |b|) + FromBits(b)
    decreases |b|
  {
    if b == [] {
      assert a + b == a;
    } else {
      var k := |b| - 1;
      assert (a + b)[..|a| + k] == a + b[..k] && (a + b)[|a| + k] == b[k];
      FromBitsConcat(a, b[..k]);
      DoubleProduct(FromBits(a), Pow(2, k));
    }
  }

  lemma DoubleProduct(x: nat, p: nat)
    ensures 2 * (x * p) == x * (2 * p)
  {
  }

  /** Groups of `w` bits are the digits of a numeral in base `2^w`. */
  lemma {:induction false} SpreadIsNumeral(w: nat, vals: seq<nat>)
    requires forall i :: 0 <= i < |vals| ==> vals[i] < Pow(2, w)
    ensures FromBits(Spread(w, vals)) == BigEndian(Pow(2, w), vals)
    decreases |vals|
  {
    if vals != [] {
      var k := |vals| - 1;
      SpreadIsNumeral(w, vals[..k]);
      assert vals == vals[..k] + [vals[k]];
      SpreadSnoc(w, vals[..k], vals[k]);
      FromBitsConcat(Spread(w, vals[..k]), ToBits(w, vals[k]));
      FromBitsToBits(w, vals[k]);
    }
  }

  /** The first `k` of `w` bits are the number without its other bits. */
  lemma {:induction false} LeadingBits(w: nat, k: nat, v: nat)
    requires k <= w && v < Pow(2, w)
    ensures FromBits(ToBits(w, v)[..k]) == v / Pow(2, w - k)
    decreases w
  {
    if k == w {
      assert ToBits(w, v)[..w] == ToBits(w, v) && Pow(2, 0) == 1;
      FromBitsToBits(w, v);
    } else {
      assert ToBits(w, v)[..k] == ToBits(w - 1, v / 2)[..k];
      LeadingBits(w - 1, k, v / 2);
      HalfQuotient(v, Pow(2, w - 1 - k));
    }
  }

  lemma ChecksumNumber(sha: Hasher, e: bytes)
    requires ValidLength(|e|)
    ensures |ChecksumBits(sha, e)| == |e| / 4 && FromBits(ChecksumBits(sha, e)) == sha(e)[0] / Pow(2, 8 - |e| / 4)
  {
    hide FromBits, ToBits;
    var h, k := sha(e), |e| / 4;
    SpreadLength(8, h);
    ElevenBits();
    assert Spread(8, h) == ToBits(8, h[0]) + Spread(8, h[1..]);
    assert Spread(8, h)[..k] == ToBits(8, h[0])[..k];
    LeadingBits(8, k, h[0]);
  }

  /** The standard in one line: the words are the base-2048 digits, first word first, of the entropy
      read as a number and followed by the first `|e| / 4` bits of its hash. */
  lemma MnemonicIsNumeral(sha: Hasher, list: seq<string>, e: bytes) returns (digits: seq<nat>)
    requires IsWordList(list) && ValidLength(|e|)
    ensures |digits| == 3 * (|e| / 4) && forall i :: 0 <= i < |digits| ==> digits[i] < 2048
    ensures FromEntropy(sha, list, e) == Ok(WordsAt(list, digits))
    ensures BigEndian(2048, digits) == BigEndian(256, e) * Pow(2, |e| / 4) + sha(e)[0] / Pow(2, 8 - |e| / 4)
  {
    hide FromBits, ToBits, BigEndian, Spread, Chunks, ChecksumBits, IsWordList, WordsAt;
    var b, n := MnemonicBits(sha, e), 3 * (|e| / 4);
    MnemonicBitsLength(sha, e);
    ElevenBits();
    SpreadOfChunks(11, b, n);
    digits := Chunks(11, b);
    SpreadIsNumeral(11, digits);
    SpreadIsNumeral(8, e);
    ChecksumNumber(sha, e);
    FromBitsConcat(Spread(8, e), ChecksumBits(sha, e));
  }

  // ----- the phrase -----

  function Join(words: seq<string>): string {
    if words == [] then "" else if |words| == 1 then words[0] else words[0] + " " + Join(words[1..])
  }

  function WordLength(s: string): (n: nat)
    ensures n <= |s|
  {
    if s == [] || IsWhitespace(s[0]) then 0 else 1 + WordLength(s[1..])
  }

  lemma {:induction false} TrimStartShortens(s: string)
    ensures |TrimStart(s)| <= |s| && (TrimStart(s) != [] ==> WordLength(TrimStart(s)) > 0)
  {
    if s != [] && IsWhitespace(s[0]) {
      TrimStartShortens(s[1..]);
    }
  }

  function SplitWhitespace(s: string): seq<string>
    decreases |s|
  {
    TrimStartShortens(s);
    var t := TrimStart(s);
    if t == [] then [] else [t[..WordLength(t)]] + SplitWhitespace(t[WordLength(t)..])
  }

  /** White space separates words wherever it stands, and only white space does. */
  lemma {:induction false} SplitAtWhitespace(a: string, c: char, b: string)
    requires IsWhitespace(c)
    ensures SplitWhitespace(a + [c] + b) == SplitWhitespace(a) + SplitWhitespace(b)
    decreases |a|
  {
    hide IsWhitespace;
    var s := a + [c] + b;
    if a == [] {
      assert s[1..] == b && TrimStart(s) == TrimStart(b);
    } else if IsWhitespace(a[0]) {
      assert s[1..] == a[1..] + [c] + b;
      assert TrimStart(s) == TrimStart(s[1..]) && TrimStart(a) == TrimStart(a[1..]);
      SplitAtWhitespace(a[1..], c, b);
    } else {
      var n := WordLength(a);
      WordLengthBefore(a, c, b);
      assert s[..n] == a[..n] && s[n..] == a[n..] + [c] + b;
      SplitAtWhitespace(a[n..], c, b);
    }
  }

  lemma {:induction false} WordLengthBefore(a: string, c: char, b: string)
    requires IsWhitespace(c)
    ensures WordLength(a + [c] + b) == WordLength(a)
  {
    hide IsWhitespace;
    if a != [] {
      assert (a + [c] + b)[1..] == a[1..] + [c] + b;
      WordLengthBefore(a[1..], c, b);
    }
  }

  lemma {:induction false} SplitWord(w: string)
    requires forall i :: 0 <= i < |w| ==> !IsWhitespace(w[i])
    ensures SplitWhitespace(w) == if w == [] then [] else [w]
  {
    hide IsWhitespace;
    if w != [] {
      WordLengthOf(w, []);
      assert w + [] == w && TrimStart(w) == w && w[..|w|] == w && w[|w|..] == [];
      assert SplitWhitespace([]) == [];
    }
  }

  /** `split(' ')` */
  function SplitSpace(s: string): seq<string> {
    SplitSpaceFrom([], s)
  }

  function SplitSpaceFrom(word: string, s: string): seq<string>
    decreases |s|
  {
    if s == [] then [word]
    else if s[0] == ' ' then [word] + SplitSpaceFrom([], s[1..])
    else SplitSpaceFrom(word + [s[0]], s[1..])
  }

  datatype Mnemonic = Mnemonic(phrase: string)

  function Parse(sha: Hasher, list: seq<string>, phrase: string): Result<Mnemonic, MnemonicError> {
    var normalized := Join(SplitWhitespace(phrase));
    match ParseWords(sha, list, SplitSpace(normalized))
    case Err(e) => Err(e)
    case Ok(_) => Ok(Mnemonic(normalized))
  }

  predicate AllWords(words: seq<string>) { forall i :: 0 <= i < |words| ==> IsWord(words[i]) }

  lemma {:induction false} WordLengthOf(w: string, s: string)
    requires (forall i :: 0 <= i < |w| ==> !IsWhitespace(w[i])) && (s == [] || IsWhitespace(s[0]))
    ensures WordLength(w + s) == |w|
  {
    if w == [] {
      assert w + s == s;
    } else {
      assert (w + s)[1..] == w[1..] + s;
      WordLengthOf(w[1..], s);
    }
  }

  lemma {:induction false} WordLengthIsWord(s: string)
    ensures forall i :: 0 <= i < WordLength(s) ==> !IsWhitespace(s[i])
  {
    if s != [] && !IsWhitespace(s[0]) {
      WordLengthIsWord(s[1..]);
      assert forall i :: 0 < i < WordLength(s) ==> s[i] == s[1..][i - 1];
    }
  }

  lemma {:induction false} SplitWhitespaceWords(s: string)
    ensures AllWords(SplitWhitespace(s))
    decreases |s|
  {
    TrimStartShortens(s);
    var t := TrimStart(s);
    if t != [] {
      WordLengthIsWord(t);
      SplitWhitespaceWords(t[WordLength(t)..]);
    }
  }

  lemma {:induction false} SplitWhitespaceJoin(words: seq<string>)
    requires AllWords(words)
    ensures SplitWhitespace(Join(words)) == words
  {
    if words != [] {
      var w, rest := words[0], words[1..];
      var s := if rest == [] then [] else " " + Join(rest);
      assert Join(words) == w + s;
      WordLengthOf(w, s);
      assert TrimStart(w + s) == w + s by { assert (w + s)[0] == w[0]; }
      assert (w + s)[..|w|] == w && (w + s)[|w|..] == s;
      SplitWhitespaceJoin(rest);
      if rest != [] {
        assert s[1..] == Join(rest) && TrimStart(s) == TrimStart(Join(rest));
      }
      assert SplitWhitespace(s) == rest;
      assert words == [w] + rest;
    }
  }

  lemma {:induction false} SplitSpaceWord(word: string, w: string, s: string)
    requires forall i :: 0 <= i < |w| ==> w[i] != ' '
    ensures SplitSpaceFrom(word, w + s) == SplitSpaceFrom(word + w, s)
    decreases |w|
  {
    if w == [] {
      assert w + s == s && word + w == word;
    } else {
      assert (w + s)[1..] == w[1..] + s && word + w == (word + [w[0]]) + w[1..];
      SplitSpaceWord(word + [w[0]], w[1..], s);
    }
  }

  lemma {:induction false} SplitSpaceJoin(words: seq<string>)
    requires AllWords(words) && words != []
    ensures SplitSpace(Join(words)) == words
  {
    var w, rest := words[0], words[1..];
    assert [] + w == w;
    assert forall i :: 0 <= i < |w| ==> w[i] != ' ';
    if rest == [] {
      SplitSpaceWord([], w, []);
      assert w + [] == w;
    } else {
      SplitSpaceWord([], w, " " + Join(rest));
      assert Join(words) == w + (" " + Join(rest));
      assert (" " + Join(rest))[1..] == Join(rest);
      SplitSpaceJoin(rest);
      assert words == [w] + rest;
    }
  }

  /** The normal form is split into the words of the phrase, unless there are none, and then
      neither splitting is a mnemonic. */
  lemma NormalWords(sha: Hasher, list: seq<string>, phrase: string)
    ensures var words := SplitWhitespace(phrase);
            var again := SplitSpace(Join(words));
            again == words || (ParseWords(sha, list, again).Err? && ParseWords(sha, list, words).Err?)
  {
    var words := SplitWhitespace(phrase);
    SplitWhitespaceWords(phrase);
    if words != [] {
      SplitSpaceJoin(words);
    } else {
      assert SplitSpace("") == [""];
    }
  }

  /** A phrase is accepted, in normal form, exactly when its white-space separated words are
      the mnemonic of some entropy. */
  lemma ParseAcceptsIff(sha: Hasher, list: seq<string>, phrase: string)
    requires IsWordList(list)
    ensures var words := SplitWhitespace(phrase);
            Parse(sha, list, phrase).Ok? <==> exists e: bytes :: FromEntropy(sha, list, e) == Ok(words)
    ensures Parse(sha, list, phrase).Ok? ==> Parse(sha, list, phrase).value.phrase == Join(SplitWhitespace(phrase))
  {
    hide ParseWords, FromEntropy, SplitWhitespace, IsWordList, SplitSpace, Join;
    var words := SplitWhitespace(phrase);
    NormalWords(sha, list, phrase);
    if Parse(sha, list, phrase).Ok? {
      ParseIffFromEntropy(sha, list, words, ParseWords(sha, list, words).value);
    }
    forall e: bytes | FromEntropy(sha, list, e) == Ok(words) ensures Parse(sha, list, phrase).Ok? {
      ParseIffFromEntropy(sha, list, words, e);
    }
  }

  /** A generated phrase is accepted unchanged. */
  lemma GeneratedPhraseParses(sha: Hasher, list: seq<string>, e: bytes)
    requires IsWordList(list) && FromEntropy(sha, list, e).Ok?
    ensures var phrase := Join(FromEntropy(sha, list, e).value); Parse(sha, list, phrase) == Ok(Mnemonic(phrase))
  {
    var words := FromEntropy(sha, list, e).value;
    ElevenBits();
    MnemonicBitsLength(sha, e);
    SpreadOfChunks(11, MnemonicBits(sha, e), 3 * (|e| / 4));
    SplitWhitespaceJoin(words);
    ParseAcceptsIff(sha, list, Join(words));
  }

  // ----- the loops -----

  /** `idx = (idx << 1) | bit` */
  lemma ShiftInBit(idx: nat, b: bit)
    ensures Or(2 * idx, b) == 2 * idx + b
  {
    assert Pow(2, 1) == 2;
    OrDisjoint(2 * idx, b, 1);
  }

  lemma FromBitsSnoc(b: seq<bit>, i: nat, j: nat)
    requires i <= j < |b|
    ensures FromBits(b[i..j + 1]) == 2 * FromBits(b[i..j]) + b[j]
  {
    assert b[i..j + 1][..j - i] == b[i..j];
  }

  lemma {:induction false} ChunkAt(w: nat, b: seq<bit>, n: nat, g: nat)
    requires w > 0 && |b| == w * n && g < n
    ensures 0 <= w * g && w * g + w <= |b| && |Chunks(w, b)| == n && Chunks(w, b)[g] == FromBits(b[w * g..w * g + w])
    decreases n
  {
    hide FromBits;
    SpreadOfChunks(w, b, n);
    MulMonotone(g + 1, n, w);
    MulMonotone(1, n, w);
    if g == 0 {
      assert w * 0 == 0;
    } else {
      GroupBefore(w, n, g);
      ChunkAt(w, b[w..], n - 1, g - 1);
      var lo := w * (g - 1);
      assert b[w..][lo..lo + w] == b[lo + w..lo + w + w];
    }
  }

  lemma GroupBefore(w: nat, n: nat, g: nat)
    ensures w * (n - 1) == w * n - w && w * g == w * (g - 1) + w
  {
  }

  /** The inner loop: eleven bits, from the entropy or from the hash, shifted into an index. */
  method ReadGroup(sha: Hasher, entropy: bytes, hash: Digest, group: nat) returns (idx: nat)
    requires ValidLength(|entropy|) && hash == sha(entropy) && group < 3 * (|entropy| / 4)
    ensures |MnemonicBits(sha, entropy)| == 11 * (3 * (|entropy| / 4))
    ensures idx == FromBits(MnemonicBits(sha, entropy)[11 * group..11 * group + 11])
  {
    hide MnemonicBits, BitAt, FromBits, Or;
    FromBitsNothing();
    ghost var all := MnemonicBits(sha, entropy);
    MnemonicBitsLength(sha, entropy);
    var entBits := |entropy| * 8;
    idx := 0;
    for bit := 0 to 11
      invariant idx == FromBits(all[11 * group..11 * group + bit])
    {
      var k := group * 11 + bit;
      AllBitsAt(sha, entropy, k);
      var bitVal := if k < entBits then BitAt(entropy, k) else BitAt(hash, k - entBits);
      FromBitsSnoc(all, 11 * group, k);
      ShiftInBit(idx, bitVal);
      idx := Or(2 * idx, bitVal);
    }
  }

  /** `Mnemonic::from_entropy` */
  method FromEntropyLoop(sha: Hasher, list: seq<string>, entropy: bytes) returns (r: Result<seq<string>, MnemonicError>)
    requires IsWordList(list)
    ensures r == FromEntropy(sha, list, entropy)
  {
    hide MnemonicBits, Chunks, FromBits;
    var entBits := |entropy| * 8;
    if entBits < 128 || entBits > 256 || entBits % 32 != 0 {
      return Err(BadEntropyLength);
    }
    var hash := sha(entropy);
    var totalBits := entBits + entBits / 32;
    ghost var all, n := MnemonicBits(sha, entropy), 3 * (|entropy| / 4);
    MnemonicBitsLength(sha, entropy);
    ElevenBits();
    SpreadOfChunks(11, all, n);
    ghost var chunks := Chunks(11, all);
    assert totalBits / 11 == n == |chunks|;
    var words: seq<string> := [];
    for group := 0 to totalBits / 11
      invariant words == WordsAt(list, chunks[..group])
    {
      ChunkAt(11, all, n, group);
      var idx := ReadGroup(sha, entropy, hash, group);
      words := words + [list[idx]];
      assert chunks[..group + 1] == chunks[..group] + [idx];
    }
    assert chunks[..n] == chunks;
    return Ok(words);
  }

  lemma AllBitsAt(sha: Hasher, e: bytes, k: nat)
    requires ValidLength(|e|) && k < 8 * |e| + |e| / 4
    ensures |MnemonicBits(sha, e)| == 8 * |e| + |e| / 4
    ensures MnemonicBits(sha, e)[k] == if k < 8 * |e| then BitAt(e, k) else BitAt(sha(e), k - 8 * |e|)
  {
    MnemonicBitsLength(sha, e);
    SpreadLength(8, e);
    SpreadLength(8, sha(e));
    if k < 8 * |e| {
      SpreadAt(e, k);
    } else {
      SpreadAt(sha(e), k - 8 * |e|);
    }
  }

  /** Eleven bits of one word index, most significant first. */
  method PushIndex(bits: seq<bit>, idx: nat) returns (r: seq<bit>)
    ensures r == bits + ToBits(11, idx)
  {
    r := bits;
    var bit := 11;
    while bit > 0
      invariant 0 <= bit <= 11
      invariant r == bits + ToBits(11, idx)[..11 - bit]
    {
      bit := bit - 1;
      BitOf(11, idx, 10 - bit);
      r := r + [Shr(idx, bit) % 2];
    }
    assert ToBits(11, idx)[..11] == ToBits(11, idx);
  }

  method PhraseBitsLoop(list: seq<string>, words: seq<string>) returns (r: Option<seq<bit>>)
    ensures r == if AllKnown(list, words) then Some(PhraseBits(list, words)) else None
  {
    hide ToBits;
    var bits: seq<bit> := [];
    for i := 0 to |words|
      invariant AllKnown(list, words[..i]) && bits == Spread(11, Indices(list, words[..i]))
    {
      var idx := IndexOf(list, words[i]);
      if idx.None? {
        return None;
      }
      assert words[..i + 1] == words[..i] + [words[i]];
      assert Indices(list, words[..i + 1]) == Indices(list, words[..i]) + [idx.value];
      SpreadSnoc(11, Indices(list, words[..i]), idx.value);
      bits := PushIndex(bits, idx.value);
    }
    assert words[..|words|] == words;
    return Some(bits);
  }

  /** One entropy byte: `b = (b << 1) | bit`, eight times. */
  method ReadByte(bits: seq<bit>, i: nat) returns (b: byte)
    requires 8 * i + 8 <= |bits|
    ensures b == FromBits(bits[8 * i..8 * i + 8])
  {
    hide FromBits, Or;
    var v: nat := 0;
    assert FromBits(bits[8 * i..8 * i]) == 0 by { FromBitsNothing(); }
    for j := 0 to 8
      invariant v == FromBits(bits[8 * i..8 * i + j])
    {
      FromBitsSnoc(bits, 8 * i, 8 * i + j);
      ShiftInBit(v, bits[8 * i + j]);
      v := Or(2 * v, bits[8 * i + j]);
    }
    ElevenBits();
    b := v;
  }

  lemma FromBitsNothing()
    ensures FromBits([]) == 0
  {
  }

  /** Fill the entropy buffer byte by byte. */
  method RebuildLoop(bits: seq<bit>, n: nat) returns (e: bytes)
    requires n <= |bits| && n % 8 == 0
    ensures e == Rebuild(bits, n)
  {
    hide FromBits, Chunks, ToBits, Spread, Pow;
    var entropy := new byte[n / 8](_ => 0);
    ElevenBits();
    SpreadOfChunks(8, bits[..n], n / 8);
    for i := 0 to n / 8
      invariant forall k :: 0 <= k < i ==> entropy[k] == Rebuild(bits, n)[k]
    {
      ChunkAt(8, bits[..n], n / 8, i);
      entropy[i] := ReadByte(bits[..n], i);
    }
    e := entropy[..];
  }

  /** The word checks of `Mnemonic::parse` */
  method ParseWordsLoop(sha: Hasher, list: seq<string>, words: seq<string>) returns (r: Result<bytes, MnemonicError>)
    requires IsWordList(list)
    ensures r == ParseWords(sha, list, words)
  {
    hide Rebuild, PhraseBits, Spread, IsWordList;
    if !ValidCount(|words|) {
      return Err(BadWordCount);
    }
    var phrase := PhraseBitsLoop(list, words);
    if phrase.None? {
      return Err(UnknownWord);
    }
    var bits := phrase.value;
    var n := EntropyBits(|words|);
    EntropyBitsOf(|words|);
    var entropy := RebuildLoop(bits, n);
    var hash := sha(entropy);
    SpreadLength(8, hash);
    ghost var expected := ChecksumBits(sha, entropy);
    for i := 0 to n / 32
      invariant forall k :: 0 <= k < i ==> bits[n + k] == expected[k]
    {
      SpreadAt(hash, i);
      if bits[n + i] != BitAt(hash, i) {
        assert bits[n..n + n / 32][i] != expected[i];
        return Err(BadChecksum);
      }
    }
    assert bits[n..n + n / 32] == expected;
    return Ok(entropy);
  }
}
