/** The block header: 112 bytes from version 4 on, and what its hash commits to. */
module Block {
  import opened Machine
  import opened Radix
  import opened Wire

  datatype BlockHeader = BlockHeader(version: i32, prevBlock: Digest, merkleRoot: Digest, time: u32, bits: u32,
                                     nonce: u32, accumulatorCheckpoint: Digest)

  datatype BlockError = LegacyVersion

  function HeaderBytes(h: BlockHeader): (b: bytes)
    ensures |b| == if h.version > 3 then 112 else 80
  {
    SignedBytes(h.version, 4) + h.prevBlock + h.merkleRoot + LeBytes(h.time, 4) + LeBytes(h.bits, 4) +
    LeBytes(h.nonce, 4) + (if h.version > 3 then h.accumulatorCheckpoint else [])
  }

  function HeaderHash(dsha: Hasher, h: BlockHeader): Result<Digest, BlockError> {
    if h.version < 4 then Err(LegacyVersion) else Ok(dsha(HeaderBytes(h)))
  }

  /** The header read back from its bytes. */
  function ParseHeader(b: bytes): Option<BlockHeader> {
    if |b| < 80 then None else
    BytePowers(); LeBytesOfValue(b[..4]);
    LeBytesOfValue(b[68..72]); LeBytesOfValue(b[72..76]); LeBytesOfValue(b[76..80]);
    SignedInverse(LeValue(b[..4]), 4);
    var version: i32 := SignedValue(LeValue(b[..4]), 4);
    if |b| != (if version > 3 then 112 else 80) then None else
    Some(BlockHeader(version, b[4..36], b[36..68], LeValue(b[68..72]), LeValue(b[72..76]), LeValue(b[76..80]),
                     if version > 3 then b[80..] else ZeroDigest()))
  }

  lemma Fields(v: bytes, p: Digest, m: Digest, t: bytes, bits: bytes, n: bytes, c: bytes)
    requires |v| == |t| == |bits| == |n| == 4
    ensures var b := v + p + m + t + bits + n + c;
            && b[..4] == v && b[4..36] == p && b[36..68] == m
            && b[68..72] == t && b[72..76] == bits && b[76..80] == n && b[80..] == c
  {
    var head := v + p;
    assert head[..4] == v && head[4..] == p;
    assert (head + m)[36..] == m && (head + m)[..36] == head;
    assert (head + m + t)[68..] == t && (head + m + t)[..68] == head + m;
    assert (head + m + t + bits)[72..] == bits && (head + m + t + bits)[..72] == head + m + t;
    assert (head + m + t + bits + n)[76..] == n && (head + m + t + bits + n)[..76] == head + m + t + bits;
  }

  /** Where a reader finds each field; the accumulator checkpoint is there from version 4 on. */
  lemma HeaderLayout(h: BlockHeader)
    ensures var b := HeaderBytes(h);
            && LeValue(b[..4]) == (if h.version >= 0 then h.version else h.version + TWO_32)
            && b[4..36] == h.prevBlock && b[36..68] == h.merkleRoot
            && LeValue(b[68..72]) == h.time && LeValue(b[72..76]) == h.bits && LeValue(b[76..80]) == h.nonce
            && b[80..] == if h.version > 3 then h.accumulatorCheckpoint else []
  {
    hide LeBytes, SignedBytes, LeValue;
    Fields(SignedBytes(h.version, 4), h.prevBlock, h.merkleRoot, LeBytes(h.time, 4), LeBytes(h.bits, 4),
           LeBytes(h.nonce, 4), if h.version > 3 then h.accumulatorCheckpoint else []);
    BytePowers();
    SignedBytesValue(h.version, 4);
    LeValueOfBytes(h.time, 4);
    LeValueOfBytes(h.bits, 4);
    LeValueOfBytes(h.nonce, 4);
  }

  /** Only headers of the full 112 bytes are hashed; older ones are refused. */
  lemma FullHeadersOnly(dsha: Hasher, h: BlockHeader)
    ensures HeaderHash(dsha, h).Ok? <==> |HeaderBytes(h)| == 112
    ensures HeaderHash(dsha, h).Ok? ==> HeaderHash(dsha, h).value == dsha(HeaderBytes(h))
  {
    hide LeBytes, SignedBytes;
  }

  /** Every field of a hashed header can be read back from the hashed bytes. */
  lemma HeaderRoundTrip(h: BlockHeader)
    requires h.version > 3 || h.accumulatorCheckpoint == ZeroDigest()
    ensures ParseHeader(HeaderBytes(h)) == Some(h)
  {
    hide LeBytes, SignedBytes, LeValue, SignedValue;
    Fields(SignedBytes(h.version, 4), h.prevBlock, h.merkleRoot, LeBytes(h.time, 4), LeBytes(h.bits, 4),
           LeBytes(h.nonce, 4), if h.version > 3 then h.accumulatorCheckpoint else []);
    BytePowers();
    SignedRoundTrip(h.version, 4, []);
    assert SignedBytes(h.version, 4) + [] == SignedBytes(h.version, 4);
    LeValueOfBytes(h.time, 4);
    LeValueOfBytes(h.bits, 4);
    LeValueOfBytes(h.nonce, 4);
  }

  /** `BlockHeader::serialize` */
  method SerializeHeader(h: BlockHeader) returns (out: bytes)
    ensures out == HeaderBytes(h)
    ensures h.version > 3 || h.accumulatorCheckpoint == ZeroDigest() ==> ParseHeader(out) == Some(h)
  {
    if h.version > 3 || h.accumulatorCheckpoint == ZeroDigest() {
      HeaderRoundTrip(h);
    }
    out := SignedBytes(h.version, 4);
    out := out + h.prevBlock;
    out := out + h.merkleRoot;
    out := out + LeBytes(h.time, 4);
    out := out + LeBytes(h.bits, 4);
    out := out + LeBytes(h.nonce, 4);
    if h.version > 3 {
      out := out + h.accumulatorCheckpoint;
    }
  }

  /** `BlockHeader::hash` */
  method HashHeader(dsha: Hasher, h: BlockHeader) returns (r: Result<Digest, BlockError>)
    ensures r == HeaderHash(dsha, h)
  {
    if h.version < 4 {
      return Err(LegacyVersion);
    }
    var buf := SerializeHeader(h);
    return Ok(dsha(buf));
  }
}
